/** The response encoder: it fills the packet buffer from the end towards the start, each
    enclosing length being what already lies behind it, then moves the result to the front. */
module Encoder {
  import opened Types
  import opened Ber
  import opened OidCodec
  import opened Messages
  import opened Decoder
  import opened Writer

  class Response {
    var errorStatus: Int32
    var errorIndex: Int32
    var valueList: seq<Value>

    constructor ()
      ensures errorStatus == STATUS_OK && errorIndex == 0 && valueList == []
    {
      errorStatus, errorIndex, valueList := STATUS_OK, 0, [];
    }
  }

  // ----- what a value is on the wire -----

  ghost predicate ValidValue(v: Value) {
    v.oid.Valid() && 0 <= v.data.encodedLength <= v.data.buffer.Length
  }

  ghost function BindingOf(v: Value): Binding
    requires ValidValue(v)
    reads v.data.buffer
  {
    Binding(v.oid, v.data.buffer[..v.data.encodedLength])
  }

  ghost predicate ValidValues(vs: seq<Value>) {
    forall i :: 0 <= i < |vs| ==> ValidValue(vs[i])
  }

  ghost function Buffers(vs: seq<Value>): set<object> {
    set i | 0 <= i < |vs| :: vs[i].data.buffer
  }

  ghost function Bindings(vs: seq<Value>): (bs: seq<Binding>)
    requires ValidValues(vs)
    reads Buffers(vs)
    ensures |bs| == |vs| && ValidBindings(bs)
    ensures forall i :: 0 <= i < |vs| ==> bs[i] == BindingOf(vs[i])
  {
    seq(|vs|, i requires 0 <= i < |vs| reads Buffers(vs) => BindingOf(vs[i]))
  }

  // ----- predicted lengths -----

  function IntegerLength(v: Int32): (n: nat)
    ensures n == |IntegerTlv(v)|
  {
    HeaderForms(INTEGER, IntegerOctets(v));
    if v < -8388608 || v > 8388607 then 6
    else if v < -32768 || v > 32767 then 5
    else if v < -128 || v > 127 then 4
    else 3
  }

  function SequenceHeaderLength(length: nat): (n: nat)
    ensures length <= 0xFFFF ==> forall tag :: n == |Header(tag, length)|
    ensures length > 0xFFFF ==> n == MAX_PACKET_SIZE
  {
    if length > 0xFFFF then MAX_PACKET_SIZE
    else
      HeaderForms(SEQUENCE, length);
      assert forall tag: Byte :: |Header(tag, length)| == |Header(SEQUENCE, length)|;
      if length > 0xFF then 4 else if length > 0x7F then 3 else 2
  }

  function StringLength(s: seq<Byte>): (n: nat)
    ensures |s| <= 0xFFFF ==> n == |StringTlv(s)|
    ensures |s| > 0xFFFF ==> n == MAX_PACKET_SIZE
  {
    if |s| > 0xFFFF then MAX_PACKET_SIZE
    else
      HeaderForms(OCTET_STRING, |s|);
      if |s| > 0xFF then |s| + 4 else if |s| > 0x7F then |s| + 3 else |s| + 2
  }

  // ----- prepending -----

  lemma PatchedBefore(before: seq<Byte>, at: nat, bytes: seq<Byte>)
    requires at + |bytes| <= |before|
    ensures Patched(before, at, bytes)[at..] == bytes + before[at + |bytes|..]
    ensures Patched(before, at, bytes)[..at] == before[..at]
  {
  }

  /** The step for an integer field: a bounds check and a write just below `pos`. */
  method PrependInteger(packet: array<Byte>, pos: nat, v: Int32) returns (ok: bool, at: nat)
    requires pos <= packet.Length
    modifies packet
    ensures ok <==> |IntegerTlv(v)| <= pos
    ensures ok ==> at == pos - |IntegerTlv(v)|
    ensures ok ==> packet[at..] == IntegerTlv(v) + old(packet[pos..])
  {
    hide IntegerTlv, Patched;
    var length := IntegerLength(v);
    if pos < length {
      return false, pos;
    }
    PatchedBefore(packet[..], pos - length, IntegerTlv(v));
    EncodeInteger(packet, pos - length, v);
    return true, pos - length;
  }

  /** The step for the header of `n` octets, most often of everything from `pos` on. */
  method PrependHeader(packet: array<Byte>, pos: nat, n: nat, tag: Byte) returns (ok: bool, at: nat)
    requires pos <= packet.Length == MAX_PACKET_SIZE && n <= 0xFFFF
    modifies packet
    ensures ok <==> |Header(tag, n)| <= pos
    ensures ok ==> at == pos - |Header(tag, n)|
    ensures ok ==> packet[at..] == Header(tag, n) + old(packet[pos..]) && packet[..at] == old(packet[..at])
  {
    hide Header, Patched;
    var length := SequenceHeaderLength(n);
    if pos < length {
      return false, pos;
    }
    PatchedBefore(packet[..], pos - length, Header(tag, n));
    ok := EncodeHeader(packet, pos - length, n, tag);
    return true, pos - length;
  }

  method PrependString(packet: array<Byte>, pos: nat, s: seq<Byte>) returns (ok: bool, at: nat)
    requires pos <= packet.Length == MAX_PACKET_SIZE
    modifies packet
    ensures ok <==> |StringTlv(s)| <= pos
    ensures ok ==> at == pos - |StringTlv(s)|
    ensures ok ==> packet[at..] == StringTlv(s) + old(packet[pos..])
  {
    hide Header, Patched;
    var length := StringLength(s);
    if pos < length || |s| > 0xFFFF {
      return false, pos;
    }
    PatchedBefore(packet[..], pos - length, StringTlv(s));
    ok := EncodeString(packet, pos - length, s);
    return true, pos - length;
  }

  method PrependData(packet: array<Byte>, pos: nat, d: Data) returns (ok: bool, at: nat)
    requires pos <= packet.Length
    requires 0 <= d.encodedLength <= d.buffer.Length && d.buffer != packet
    modifies packet
    ensures ok <==> d.encodedLength <= pos
    ensures ok ==> at == pos - d.encodedLength
    ensures ok ==> packet[at..] == d.buffer[..d.encodedLength] + old(packet[pos..])
    ensures ok ==> packet[..at] == old(packet[..at])
  {
    var length := d.encodedLength;
    if pos < length {
      return false, pos;
    }
    PatchedBefore(packet[..], pos - length, d.buffer[..length]);
    Copy(packet, pos - length, d.buffer[..length]);
    return true, pos - length;
  }

  /** The slot for a name has the recorded size; if that is too large, octets that were in the
      buffer before are left between the name and what follows it. */
  method PrependOid(packet: array<Byte>, pos: nat, o: Oid) returns (ok: bool, at: nat)
    requires pos <= packet.Length && o.Valid() && |OidTlv(o.subids)| <= o.encodedLength
    modifies packet
    ensures ok <==> o.encodedLength <= pos
    ensures ok ==> at == pos - o.encodedLength && packet[..at] == old(packet[..at])
    ensures ok ==> packet[at..] == OidTlv(o.subids) + (Gap(o, old(packet[..]), pos) + old(packet[pos..]))
  {
    hide OidTlv, Patched;
    var length := o.encodedLength;
    if pos < length {
      return false, pos;
    }
    PatchedBefore(packet[..], pos - length, OidTlv(o.subids));
    SplitAt(packet[..], pos - length + |OidTlv(o.subids)|, pos);
    EncodeOid(packet, pos - length, o.subids);
    return true, pos - length;
  }

  lemma SplitAt(s: seq<Byte>, a: nat, b: nat)
    requires a <= b <= |s|
    ensures s[a..] == s[a..b] + s[b..]
  {
  }

  /** A gap below a part of the buffer does not depend on that part. */
  lemma SameGap(o: Oid, s: seq<Byte>, t: seq<Byte>, from: nat, end: nat)
    requires o.Valid() && |OidTlv(o.subids)| <= o.encodedLength <= end <= from <= |s| == |t|
    requires s[..from] == t[..from]
    ensures Gap(o, s, end) == Gap(o, t, end)
  {
    hide OidTlv;
    var a := end - o.encodedLength + |OidTlv(o.subids)|;
    assert s[a..end] == s[..from][a..end] && t[a..end] == t[..from][a..end];
  }

  /** Writes value, name and header of one binding below `pos`. It fails exactly when their
      sizes do not fit there; what lies from `pos` on, and below the binding, stays as it is. */
  method EncodeVarbind(packet: array<Byte>, pos: nat, v: Value) returns (ok: bool, at: nat)
    requires pos <= packet.Length == MAX_PACKET_SIZE
    requires ValidValue(v) && v.data.buffer != packet
    requires |OidTlv(v.oid.subids)| <= v.oid.encodedLength
    modifies packet
    ensures ok <==> BindingSize(BindingOf(v)) <= pos
    ensures ok ==> at == pos - BindingSize(BindingOf(v)) && packet[..at] == old(packet[..at])
    ensures ok ==> packet[at..] == BindingBytes(FilledBinding(BindingOf(v), old(packet[..]), pos)) + old(packet[pos..])
  {
    hide Header, OidTlv, Gap;
    ghost var before, behind, b := packet[..], packet[pos..], BindingOf(v);
    var n := v.oid.encodedLength + v.data.encodedLength;
    ok, at := PrependData(packet, pos, v.data);
    if !ok { return; }
    ghost var end := at;
    ghost var below := packet[..at];
    if v.oid.encodedLength <= end {
      SameGap(v.oid, packet[..], before, end, end);
    }
    ok, at := PrependOid(packet, at, v.oid);
    if !ok { return; }
    ghost var gap, name := Gap(v.oid, before, end), OidTlv(v.oid.subids);
    assert packet[at..] == name + (gap + (b.value + behind));
    assert packet[..at] == before[..at] by { Shorter(packet[..], below, before, at, end); }
    ghost var slot := at;
    ok, at := PrependHeader(packet, at, n, SEQUENCE);
    if !ok { return; }
    Regroup(Header(SEQUENCE, n), name, gap, b.value, behind);
    assert packet[..at] == before[..at] by { assert before[..slot][..at] == before[..at]; }
    FilledSize(b, before, pos);
  }

  lemma Shorter(s: seq<Byte>, below: seq<Byte>, before: seq<Byte>, at: nat, end: nat)
    requires at <= end <= |before| && at <= |s| && below == before[..end]
    requires s[..at] == below[..at]
    ensures s[..at] == before[..at]
  {
  }

  lemma Regroup(h: seq<Byte>, name: seq<Byte>, gap: seq<Byte>, value: seq<Byte>, behind: seq<Byte>)
    ensures h + (name + (gap + (value + behind))) == (h + (name + (gap + value))) + behind
  {
  }

  lemma FilledSize(b: Binding, before: seq<Byte>, end: nat)
    requires b.oid.Valid() && |OidTlv(b.oid.subids)| <= b.oid.encodedLength
    requires b.oid.encodedLength + |b.value| <= end <= |before|
    ensures BindingBytes(FilledBinding(b, before, end))
            == Header(SEQUENCE, b.oid.encodedLength + |b.value|)
               + (OidTlv(b.oid.subids) + (Gap(b.oid, before, end - |b.value|) + b.value))
  {
    hide Header, OidTlv;
  }

  /** The PDU around the finished binding list `old(packet[start..])`. */
  method EncodePdu(packet: array<Byte>, start: nat, m: Message) returns (ok: bool, pos: nat)
    requires start <= packet.Length == MAX_PACKET_SIZE
    modifies packet
    ensures ok <==> PduSize(m, MAX_PACKET_SIZE - start) <= MAX_PACKET_SIZE
    ensures ok ==> pos == MAX_PACKET_SIZE - PduSize(m, MAX_PACKET_SIZE - start)
    ensures ok ==> packet[pos..] == Pdu(m, old(packet[start..]))
  {
    hide Header, IntegerTlv, StringTlv;
    HeaderLength(m.pdu, |IntegerTlv(m.id)| + |IntegerTlv(m.nonRepeaters)|
                        + |IntegerTlv(m.maxRepetitions)| + SequenceSize(MAX_PACKET_SIZE - start));
    ok, pos := PrependHeader(packet, start, MAX_PACKET_SIZE - start, SEQUENCE);
    if !ok { return; }
    ok, pos := PrependInteger(packet, pos, m.maxRepetitions);
    if !ok { return; }
    ok, pos := PrependInteger(packet, pos, m.nonRepeaters);
    if !ok { return; }
    ok, pos := PrependInteger(packet, pos, m.id);
    if !ok { return; }
    ok, pos := PrependHeader(packet, pos, MAX_PACKET_SIZE - pos, m.pdu);
  }

  lemma PduLength(m: Message, body: seq<Byte>)
    ensures |Pdu(m, body)| == PduSize(m, |body|)
  {
    hide IntegerTlv;
    HeaderLength(m.pdu, |PduBody(m, Tlv(SEQUENCE, body))|);
  }

  /** The part of the encoder that wraps the finished binding list in a PDU and a message. */
  method EncodeEnvelope(packet: array<Byte>, start: nat, m: Message) returns (ok: bool, pos: nat)
    requires start <= packet.Length == MAX_PACKET_SIZE
    modifies packet
    ensures ok <==> EnvelopeSize(m, MAX_PACKET_SIZE - start) <= MAX_PACKET_SIZE
    ensures ok ==> pos == MAX_PACKET_SIZE - EnvelopeSize(m, MAX_PACKET_SIZE - start)
    ensures ok ==> packet[pos..] == Envelope(m, old(packet[start..]))
  {
    hide Header, IntegerTlv, StringTlv, Pdu, PduSize;
    PduLength(m, packet[start..]);
    ok, pos := EncodePdu(packet, start, m);
    if !ok { return; }
    ok, pos := PrependString(packet, pos, m.community);
    if !ok { return; }
    ok, pos := PrependInteger(packet, pos, m.version);
    if !ok { return; }
    ok, pos := PrependHeader(packet, pos, MAX_PACKET_SIZE - pos, SEQUENCE);
  }

  lemma {:induction false} SuffixSize(bs: seq<Binding>, i: nat)
    requires i <= |bs|
    ensures BindingsSize(bs[i..]) <= BindingsSize(bs)
  {
    if i > 0 {
      SuffixSize(bs[1..], i - 1);
      assert bs[1..][i - 1..] == bs[i..];
    } else {
      assert bs[0..] == bs;
    }
  }

  /** The bindings, last one first. */
  method EncodeVarbinds(packet: array<Byte>, values: seq<Value>) returns (ok: bool, pos: nat)
    requires packet.Length == MAX_PACKET_SIZE
    requires ValidValues(values) && packet !in Buffers(values) && AllFit(Bindings(values))
    modifies packet
    ensures ok <==> BindingsSize(Bindings(values)) <= MAX_PACKET_SIZE
    ensures ok ==> pos == MAX_PACKET_SIZE - BindingsSize(Bindings(values))
    ensures ok ==> packet[pos..] == BindingsBytes(Filled(Bindings(values), old(packet[..])))
  {
    hide BindingSize, BindingBytes, OidTlv, FilledBinding, Filled, BindingsBytes;
    ghost var bs, before := Bindings(values), packet[..];
    pos := MAX_PACKET_SIZE;
    var i := |values|;
    NoneFilled(bs, before);
    while i > 0
      invariant 0 <= i <= |values|
      invariant pos == MAX_PACKET_SIZE - BindingsSize(bs[i..])
      invariant Bindings(values) == bs && packet[..pos] == before[..pos]
      invariant packet[pos..] == BindingsBytes(Filled(bs[i..], before))
    {
      i := i - 1;
      ghost var now, end := packet[..], pos;
      assert bs[i] == BindingOf(values[i]);
      assert values[i].data.buffer in Buffers(values);
      ok, pos := EncodeVarbind(packet, pos, values[i]);
      FilledMore(bs, i, before, now, end);
      if !ok {
        SuffixSize(bs, i);
        return;
      }
      assert Bindings(values) == bs;
      assert packet[..pos] == now[..pos];
    }
    assert bs[0..] == bs;
    ok := true;
  }

  lemma NoneFilled(bs: seq<Binding>, before: seq<Byte>)
    ensures bs[|bs|..] == [] && BindingsBytes(Filled([], before)) == []
  {
  }

  /** One more binding below those that are already there. */
  lemma FilledMore(bs: seq<Binding>, i: nat, before: seq<Byte>, now: seq<Byte>, end: nat)
    requires i < |bs| && ValidBindings(bs) && AllFit(bs)
    requires |now| == |before| && end == |before| - BindingsSize(bs[i + 1..]) && now[..end] == before[..end]
    requires now[end..] == BindingsBytes(Filled(bs[i + 1..], before))
    ensures BindingsSize(bs[i..]) == BindingSize(bs[i]) + BindingsSize(bs[i + 1..])
    ensures var size := BindingSize(bs[i]);
            size <= end ==>
              && BindingBytes(FilledBinding(bs[i], now, end)) + now[end..] == BindingsBytes(Filled(bs[i..], before))
              && now[..end - size] == before[..end - size]
  {
    hide BindingSize, BindingsSize, BindingBytes, OidTlv, FilledBinding, Filled, BindingsBytes;
    var s := bs[i..];
    assert s[0] == bs[i] && s[1..] == bs[i + 1..];
    SizeStep(s);
    if BindingSize(bs[i]) <= end {
      FilledStep(s, before);
      SameFilling(bs[i], now, before, end);
      Shorter(now, now[..end], before, end - BindingSize(bs[i]), end);
    }
  }

  lemma SizeStep(bs: seq<Binding>)
    requires bs != []
    ensures BindingsSize(bs) == BindingSize(bs[0]) + BindingsSize(bs[1..])
    ensures BindingSize(bs[0]) >= bs[0].oid.encodedLength + |bs[0].value|
  {
    hide Header;
  }

  lemma FilledUnfolded(bs: seq<Binding>, before: seq<Byte>)
    requires bs != [] && ValidBindings(bs) && AllFit(bs) && BindingsSize(bs) <= |before|
    ensures ValidBindings(bs[1..]) && AllFit(bs[1..])
    ensures bs[0].oid.Valid() && |OidTlv(bs[0].oid.subids)| <= bs[0].oid.encodedLength
    ensures BindingsSize(bs) == BindingSize(bs[0]) + BindingsSize(bs[1..])
    ensures BindingSize(bs[0]) >= bs[0].oid.encodedLength + |bs[0].value|
    ensures Filled(bs, before)
            == [FilledBinding(bs[0], before, |before| - BindingsSize(bs[1..]))] + Filled(bs[1..], before)
  {
    hide OidTlv, FilledBinding, Header;
  }

  lemma FilledStep(bs: seq<Binding>, before: seq<Byte>)
    requires bs != [] && ValidBindings(bs) && AllFit(bs) && BindingsSize(bs) <= |before|
    ensures ValidBindings(bs[1..]) && AllFit(bs[1..])
    ensures bs[0].oid.Valid() && |OidTlv(bs[0].oid.subids)| <= bs[0].oid.encodedLength
    ensures BindingsSize(bs) == BindingSize(bs[0]) + BindingsSize(bs[1..])
    ensures BindingSize(bs[0]) >= bs[0].oid.encodedLength + |bs[0].value|
    ensures BindingsBytes(Filled(bs, before))
            == BindingBytes(FilledBinding(bs[0], before, |before| - BindingsSize(bs[1..])))
               + BindingsBytes(Filled(bs[1..], before))
  {
    hide OidTlv, FilledBinding, Filled, BindingSize, BindingsSize, BindingBytes, BindingsBytes, AllFit;
    FilledUnfolded(bs, before);
    BytesStep(Filled(bs, before));
    OneInFront(FilledBinding(bs[0], before, |before| - BindingsSize(bs[1..])), Filled(bs[1..], before));
  }

  lemma OneInFront<T>(x: T, rest: seq<T>)
    ensures ([x] + rest)[0] == x && ([x] + rest)[1..] == rest
  {
  }

  lemma BytesStep(bs: seq<Binding>)
    requires bs != [] && ValidBindings(bs)
    ensures ValidBindings(bs[1..])
    ensures BindingsBytes(bs) == BindingBytes(bs[0]) + BindingsBytes(bs[1..])
  {
    hide BindingBytes;
  }

  lemma SameFilling(b: Binding, s: seq<Byte>, t: seq<Byte>, end: nat)
    requires b.oid.Valid() && |OidTlv(b.oid.subids)| <= b.oid.encodedLength
    requires BindingSize(b) <= end <= |s| == |t| && s[..end] == t[..end]
    ensures b.oid.encodedLength + |b.value| <= BindingSize(b)
    ensures FilledBinding(b, s, end) == FilledBinding(b, t, end)
  {
    hide OidTlv, Header, Gap;
    SameGap(b.oid, s, t, end, end - |b.value|);
  }

  /** The whole message, ending at the last octet of the buffer. */
  method EncodeMessage(packet: array<Byte>, values: seq<Value>, m: Message) returns (ok: bool, pos: nat)
    requires packet.Length == MAX_PACKET_SIZE
    requires ValidValues(values) && packet !in Buffers(values) && AllFit(Bindings(values))
    modifies packet
    ensures ok <==> ReplySize(m, Bindings(values)) <= MAX_PACKET_SIZE
    ensures ok ==> BindingsSize(Bindings(values)) <= MAX_PACKET_SIZE
    ensures ok ==> pos == MAX_PACKET_SIZE - ReplySize(m, Bindings(values))
    ensures ok ==> packet[pos..] == Serialize(MessageTree(m, Filled(Bindings(values), old(packet[..]))))
  {
    hide Envelope, EnvelopeSize, OidTlv, Serialize, MessageTree, AllFit, BindingsBytes, BindingsSize, Filled;
    ghost var bs, before := Bindings(values), packet[..];
    EnvelopeIsLarger(m, BindingsSize(bs));
    if BindingsSize(bs) <= MAX_PACKET_SIZE {
      SerializeMessage(m, Filled(bs, before));
    }
    ok, pos := EncodeVarbinds(packet, values);
    assert BuffersKept(values, bs);
    if ok {
      ok, pos := EncodeEnvelope(packet, pos, m);
      assert BuffersKept(values, bs);
    }
  }

  ghost predicate BuffersKept(values: seq<Value>, bs: seq<Binding>)
    requires ValidValues(values)
    reads Buffers(values)
  {
    Bindings(values) == bs
  }

  /** The final move to the start of the buffer. */
  method MoveToFront(packet: array<Byte>, pos: nat)
    requires pos <= packet.Length
    modifies packet
    ensures packet[..packet.Length - pos] == old(packet[pos..])
  {
    if pos > 0 {
      forall i | 0 <= i < packet.Length - pos {
        packet[i] := packet[pos + i];
      }
    }
  }

  /** The values an error reply carries: the names asked for, each with a NULL. */
  function NullValues(oids: seq<Oid>, nothing: Data): seq<Value> {
    seq(|oids|, i requires 0 <= i < |oids| => Value(oids[i], nothing))
  }

  function NullBindings(oids: seq<Oid>, nothing: seq<Byte>): seq<Binding> {
    seq(|oids|, i requires 0 <= i < |oids| => Binding(oids[i], nothing))
  }

  predicate AllDecoded(oids: seq<Oid>) {
    forall i :: 0 <= i < |oids| ==> Decoded(oids[i])
  }

  lemma NullValuesAreValid(oids: seq<Oid>, nothing: Data)
    requires AllDecoded(oids) && 0 <= nothing.encodedLength <= nothing.buffer.Length
    ensures ValidValues(NullValues(oids, nothing))
    ensures Buffers(NullValues(oids, nothing)) <= {nothing.buffer}
    ensures Bindings(NullValues(oids, nothing))
            == NullBindings(oids, nothing.buffer[..nothing.encodedLength])
    ensures AllFit(Bindings(NullValues(oids, nothing)))
  {
    hide OidTlv;
  }

  ghost function ReplyMessage(request: Request, response: Response): Message
    reads request, response
  {
    Message(request.version, request.community, SNMP_RESPONSE, request.id,
            response.errorStatus, response.errorIndex, request.oidList)
  }

  /** The bindings that are sent: those of the response, or NULLs under the names asked for. */
  ghost function SentBindings(request: Request, response: Response, nothing: Data): seq<Binding>
    requires 0 <= nothing.encodedLength <= nothing.buffer.Length && ValidValues(response.valueList)
    reads request, response, nothing.buffer, Buffers(response.valueList)
  {
    if response.errorStatus != STATUS_OK
    then NullBindings(request.oidList, nothing.buffer[..nothing.encodedLength])
    else Bindings(response.valueList)
  }

  /** Encodes `response` into the packet of `client`. It succeeds exactly when the closed-form
      size fits the buffer, and then the packet is the serialized message tree with the gaps of
      inexact names in front of their values. (At most 16 names never exceed the 128 values an
      error reply could hold, so the check for that has no counterpart here.) */
  method EncodeResponse(request: Request, response: Response, client: Client, nothing: Data)
    returns (ok: bool)
    requires client.Valid() && |request.oidList| <= MAX_NR_OIDS && AllDecoded(request.oidList)
    requires 0 <= nothing.encodedLength <= nothing.buffer.Length && nothing.buffer != client.packet
    requires ValidValues(response.valueList) && client.packet !in Buffers(response.valueList)
    requires AllFit(Bindings(response.valueList))
    modifies response`valueList, client, client.packet
    ensures client.Valid()
    ensures var m, bs := ReplyMessage(request, response), old(SentBindings(request, response, nothing));
            && ValidBindings(bs) && AllFit(bs)
            && (ok <==> ReplySize(m, bs) <= MAX_PACKET_SIZE)
            && client.size == (if ok then ReplySize(m, bs) else old(client.size))
            && (ok ==> BindingsSize(bs) <= MAX_PACKET_SIZE
                       && client.Packet() == Serialize(MessageTree(m, Filled(bs, old(client.packet[..])))))
  {
    hide OidTlv, Serialize, MessageTree, AllFit, ReplySize, NullBindings, Filled, BindingsSize;
    ghost var bs := SentBindings(request, response, nothing);
    if response.errorStatus != STATUS_OK {
      NullValuesAreValid(request.oidList, nothing);
      response.valueList := NullValues(request.oidList, nothing);
    }
    assert BuffersKept(response.valueList, bs);
    var pos;
    ok, pos := EncodeMessage(client.packet, response.valueList,
                             Message(request.version, request.community, SNMP_RESPONSE, request.id,
                                     response.errorStatus, response.errorIndex, request.oidList));
    if ok {
      MoveToFront(client.packet, pos);
      client.size := MAX_PACKET_SIZE - pos;
    }
  }
}
