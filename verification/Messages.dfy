/** The SNMP message: the tree it is (RFC 1157 section 4, RFC 3416 section 3), its size, and
    what the decoder reads from any packet. */
module Messages {
  import opened Types
  import opened Machine
  import opened Ber
  import opened OidCodec

  /** For a response, `nonRepeaters` and `maxRepetitions` are the slots of the error status
      and the error index. */
  datatype Message = Message(version: Int32, community: seq<Byte>, pdu: Byte, id: Int32,
                             nonRepeaters: Int32, maxRepetitions: Int32, oids: seq<Oid>)

  /** A variable binding: a name and a value that is already encoded. */
  datatype Binding = Binding(oid: Oid, value: seq<Byte>)

  // ----- the message as a tree -----

  function BindingTree(b: Binding): Tree
    requires b.oid.Valid()
  {
    Node(SEQUENCE, [Leaf(OID, OidContent(b.oid.subids)), Encoded(b.value)])
  }

  predicate ValidBindings(bs: seq<Binding>) {
    forall i :: 0 <= i < |bs| ==> bs[i].oid.Valid()
  }

  function BindingTrees(bs: seq<Binding>): seq<Tree>
    requires ValidBindings(bs)
  {
    seq(|bs|, i requires 0 <= i < |bs| => BindingTree(bs[i]))
  }

  function MessageTree(m: Message, bs: seq<Binding>): Tree
    requires ValidBindings(bs)
  {
    Node(SEQUENCE, [
      Leaf(INTEGER, IntegerContent(m.version)),
      Leaf(OCTET_STRING, m.community),
      Node(m.pdu, [
        Leaf(INTEGER, IntegerContent(m.id)),
        Leaf(INTEGER, IntegerContent(m.nonRepeaters)),
        Leaf(INTEGER, IntegerContent(m.maxRepetitions)),
        Node(SEQUENCE, BindingTrees(bs))])])
  }

  // ----- the same octets without the tree -----

  function BindingBytes(b: Binding): seq<Byte>
    requires b.oid.Valid()
  {
    Tlv(SEQUENCE, OidTlv(b.oid.subids) + b.value)
  }

  function BindingsBytes(bs: seq<Binding>): seq<Byte>
    requires ValidBindings(bs)
  {
    if bs == [] then [] else BindingBytes(bs[0]) + BindingsBytes(bs[1..])
  }

  /** The fields of the PDU in front of the variable bindings `list`. */
  function PduBody(m: Message, list: seq<Byte>): seq<Byte> {
    IntegerTlv(m.id) + (IntegerTlv(m.nonRepeaters) + (IntegerTlv(m.maxRepetitions) + list))
  }

  function MessageBody(m: Message, pdu: seq<Byte>): seq<Byte> {
    IntegerTlv(m.version) + (StringTlv(m.community) + pdu)
  }

  function Pdu(m: Message, body: seq<Byte>): seq<Byte> {
    Tlv(m.pdu, PduBody(m, Tlv(SEQUENCE, body)))
  }

  function Envelope(m: Message, body: seq<Byte>): seq<Byte> {
    Tlv(SEQUENCE, MessageBody(m, Pdu(m, body)))
  }

  lemma SerializeTwo(a: Tree, b: Tree)
    ensures SerializeAll([a, b]) == Serialize(a) + Serialize(b)
  {
    assert [a, b][1..] == [b] && [b][1..] == [];
    assert SerializeAll([b]) == Serialize(b) + [];
  }

  lemma SerializeCons(a: Tree, rest: seq<Tree>)
    ensures SerializeAll([a] + rest) == Serialize(a) + SerializeAll(rest)
  {
    assert ([a] + rest)[1..] == rest;
  }

  lemma {:induction false} SerializeBindings(bs: seq<Binding>)
    requires ValidBindings(bs)
    ensures SerializeAll(BindingTrees(bs)) == BindingsBytes(bs)
  {
    if bs != [] {
      SerializeBindings(bs[1..]);
      assert BindingTrees(bs) == [BindingTree(bs[0])] + BindingTrees(bs[1..]);
      SerializeTwo(Leaf(OID, OidContent(bs[0].oid.subids)), Encoded(bs[0].value));
    }
  }

  lemma SerializeMessage(m: Message, bs: seq<Binding>)
    requires ValidBindings(bs)
    ensures Serialize(MessageTree(m, bs)) == Envelope(m, BindingsBytes(bs))
  {
    SerializeBindings(bs);
    var list := Node(SEQUENCE, BindingTrees(bs));
    var id, first, second := Leaf(INTEGER, IntegerContent(m.id)),
                             Leaf(INTEGER, IntegerContent(m.nonRepeaters)),
                             Leaf(INTEGER, IntegerContent(m.maxRepetitions));
    SerializeTwo(second, list);
    SerializeCons(first, [second, list]);
    SerializeCons(id, [first, second, list]);
    assert [id] + [first, second, list] == [id, first, second, list];
    assert [first] + [second, list] == [first, second, list];
    var pdu := Node(m.pdu, [id, first, second, list]);
    var version, community := Leaf(INTEGER, IntegerContent(m.version)), Leaf(OCTET_STRING, m.community);
    SerializeTwo(community, pdu);
    SerializeCons(version, [community, pdu]);
    assert [version] + [community, pdu] == [version, community, pdu];
  }

  // ----- sizes -----

  function SequenceSize(n: nat): nat {
    |Header(SEQUENCE, n)| + n
  }

  /** The size set aside for a binding, which trusts the recorded size of its OID. */
  function BindingSize(b: Binding): nat {
    SequenceSize((if b.oid.encodedLength >= 0 then b.oid.encodedLength else 0) + |b.value|)
  }

  function BindingsSize(bs: seq<Binding>): nat {
    if bs == [] then 0 else BindingSize(bs[0]) + BindingsSize(bs[1..])
  }

  function PduSize(m: Message, n: nat): nat {
    SequenceSize(|IntegerTlv(m.id)| + |IntegerTlv(m.nonRepeaters)| + |IntegerTlv(m.maxRepetitions)|
                 + SequenceSize(n))
  }

  function EnvelopeSize(m: Message, n: nat): nat {
    SequenceSize(|IntegerTlv(m.version)| + |StringTlv(m.community)| + PduSize(m, n))
  }

  function ReplySize(m: Message, bs: seq<Binding>): nat {
    EnvelopeSize(m, BindingsSize(bs))
  }

  predicate AllExact(bs: seq<Binding>)
    requires ValidBindings(bs)
  {
    forall i :: 0 <= i < |bs| ==> Exact(bs[i].oid)
  }

  /** The recorded sizes leave room for what will be written. */
  predicate AllFit(bs: seq<Binding>)
    requires ValidBindings(bs)
  {
    forall i :: 0 <= i < |bs| ==> |OidTlv(bs[i].oid.subids)| <= bs[i].oid.encodedLength
  }

  lemma EnvelopeLength(m: Message, body: seq<Byte>)
    ensures |Envelope(m, body)| == EnvelopeSize(m, |body|)
  {
    HeaderLength(m.pdu, |PduBody(m, Tlv(SEQUENCE, body))|);
  }

  lemma HeaderLength(tag: Byte, n: nat)
    ensures |Header(tag, n)| == |Header(SEQUENCE, n)|
  {
  }

  lemma SequenceSizeStrict(m: nat, n: nat)
    ensures m < n <==> SequenceSize(m) < SequenceSize(n)
  {
    if m <= n {
      HeaderMonotone(SEQUENCE, m, n);
    } else {
      HeaderMonotone(SEQUENCE, n, m);
    }
  }

  lemma EnvelopeSizeStrict(m: Message, n: nat, n': nat)
    requires n < n'
    ensures EnvelopeSize(m, n) < EnvelopeSize(m, n')
  {
    hide Header, IntegerTlv, StringTlv, SequenceSize;
    SequenceSizeStrict(n, n');
    var k := |IntegerTlv(m.id)| + |IntegerTlv(m.nonRepeaters)| + |IntegerTlv(m.maxRepetitions)|;
    SequenceSizeStrict(k + SequenceSize(n), k + SequenceSize(n'));
    var l := |IntegerTlv(m.version)| + |StringTlv(m.community)|;
    SequenceSizeStrict(l + SequenceSize(k + SequenceSize(n)), l + SequenceSize(k + SequenceSize(n')));
  }

  lemma {:induction false} BindingsLength(bs: seq<Binding>)
    requires ValidBindings(bs) && AllFit(bs)
    ensures |BindingsBytes(bs)| <= BindingsSize(bs)
    ensures |BindingsBytes(bs)| == BindingsSize(bs) <==> AllExact(bs)
  {
    hide Header, OidTlv;
    if bs != [] {
      var b := bs[0];
      HeaderLength(SEQUENCE, |OidTlv(b.oid.subids) + b.value|);
      BindingsLength(bs[1..]);
      SequenceSizeStrict(|OidTlv(b.oid.subids)| + |b.value|, b.oid.encodedLength + |b.value|);
      assert AllExact(bs) <==> Exact(b.oid) && AllExact(bs[1..]) by {
        assert forall i :: 1 <= i < |bs| ==> bs[i] == bs[1..][i - 1];
      }
    }
  }

  /** The closed-form size is the size of the serialized tree exactly when every recorded OID
      size is the true one; otherwise it is larger. */
  lemma ReplySizeIsExact(m: Message, bs: seq<Binding>)
    requires ValidBindings(bs) && AllFit(bs)
    ensures |Serialize(MessageTree(m, bs))| <= ReplySize(m, bs)
    ensures |Serialize(MessageTree(m, bs))| == ReplySize(m, bs) <==> AllExact(bs)
  {
    SerializeMessage(m, bs);
    EnvelopeLength(m, BindingsBytes(bs));
    BindingsLength(bs);
    if !AllExact(bs) {
      EnvelopeSizeStrict(m, |BindingsBytes(bs)|, BindingsSize(bs));
    }
  }

  // ----- what is really sent -----

  /** The slot of a name has the recorded size, and the name is written at its start. The rest of
      a slot that ends at `end` keeps what was in the buffer before. */
  function Gap(o: Oid, before: seq<Byte>, end: nat): seq<Byte>
    requires o.Valid() && |OidTlv(o.subids)| <= o.encodedLength <= end <= |before|
  {
    before[end - o.encodedLength + |OidTlv(o.subids)|..end]
  }

  /** A binding that ends at `end`: on the wire, the gap belongs to its value. */
  function FilledBinding(b: Binding, before: seq<Byte>, end: nat): (r: Binding)
    requires b.oid.Valid() && |OidTlv(b.oid.subids)| <= b.oid.encodedLength
    requires b.oid.encodedLength + |b.value| <= end <= |before|
    ensures r.oid == b.oid && |r.value| == |b.value| + b.oid.encodedLength - |OidTlv(b.oid.subids)|
  {
    Binding(b.oid, Gap(b.oid, before, end - |b.value|) + b.value)
  }

  /** The bindings as they come out at the end of a buffer that held `before`. */
  function Filled(bs: seq<Binding>, before: seq<Byte>): (r: seq<Binding>)
    requires ValidBindings(bs) && AllFit(bs) && BindingsSize(bs) <= |before|
    ensures |r| == |bs| && ValidBindings(r)
    ensures forall i :: 0 <= i < |bs| ==> r[i].oid == bs[i].oid
  {
    if bs == [] then []
    else [FilledBinding(bs[0], before, |before| - BindingsSize(bs[1..]))] + Filled(bs[1..], before)
  }

  lemma {:induction false} FilledLength(bs: seq<Binding>, before: seq<Byte>)
    requires ValidBindings(bs) && AllFit(bs) && BindingsSize(bs) <= |before|
    ensures |BindingsBytes(Filled(bs, before))| == BindingsSize(bs)
  {
    hide Header, OidTlv, FilledBinding;
    if bs != [] {
      var first := FilledBinding(bs[0], before, |before| - BindingsSize(bs[1..]));
      FilledLength(bs[1..], before);
      assert Filled(bs, before)[0] == first && Filled(bs, before)[1..] == Filled(bs[1..], before);
      assert |BindingBytes(first)| == BindingSize(bs[0]);
    }
  }

  lemma {:induction false} FilledExact(bs: seq<Binding>, before: seq<Byte>)
    requires ValidBindings(bs) && AllFit(bs) && BindingsSize(bs) <= |before| && AllExact(bs)
    ensures Filled(bs, before) == bs
  {
    hide Header, OidTlv;
    if bs != [] {
      FilledExact(bs[1..], before);
      var end := |before| - BindingsSize(bs[1..]);
      assert Gap(bs[0].oid, before, end - |bs[0].value|) == [];
      assert [] + bs[0].value == bs[0].value;
      assert FilledBinding(bs[0], before, end) == bs[0];
      assert bs == [bs[0]] + bs[1..];
    }
  }

  lemma EnvelopeIsLarger(m: Message, n: nat)
    ensures EnvelopeSize(m, n) >= n
  {
    hide Header, IntegerTlv, StringTlv;
  }

  /** What is sent has the closed-form size, and is the message it stands for exactly when every
      recorded OID size is the true one. */
  lemma SentAsMeant(m: Message, bs: seq<Binding>, before: seq<Byte>)
    requires ValidBindings(bs) && AllFit(bs) && BindingsSize(bs) <= |before|
    ensures |Serialize(MessageTree(m, Filled(bs, before)))| == ReplySize(m, bs)
    ensures Serialize(MessageTree(m, Filled(bs, before))) == Serialize(MessageTree(m, bs)) <==> AllExact(bs)
  {
    hide OidTlv, Envelope, EnvelopeSize, MessageTree, Serialize, BindingsBytes, Filled, AllFit, AllExact;
    SerializeMessage(m, Filled(bs, before));
    EnvelopeLength(m, BindingsBytes(Filled(bs, before)));
    FilledLength(bs, before);
    ReplySizeIsExact(m, bs);
    if AllExact(bs) {
      FilledExact(bs, before);
    }
  }

  // ----- reading -----

  // The packet `p` lies at the start of a larger buffer; `behind` are the octets that follow it
  // there, left over from earlier packets.

  /** The outcome of a decoder. Overrun: the C code reads beyond the end of the buffer, and
      nothing is defined any more. */
  datatype Parse<+T> = Parsed(value: T) | Malformed | Overrun {
    predicate IsFailure() { !Parsed? }
    function PropagateFailure<U>(): Parse<U>
      requires IsFailure()
    {
      if Malformed? then Malformed else Overrun
    }
    function Extract(): T
      requires Parsed?
    {
      value
    }
  }

  const SIZE_T := 0x1_0000_0000

  /** `pos < (size - length + 1)` in unsigned arithmetic. */
  predicate GuardPasses(pos: nat, size: nat, length: nat) {
    pos < (size - length + 1) % SIZE_T
  }

  /** The guard means that `length` octets are left except when the announced length is more
      than one above the size of the packet: then it lets the element through. */
  lemma GuardMeaning(pos: nat, size: nat, length: nat)
    requires pos <= size <= MAX_PACKET_SIZE && length <= 0xFFFF
    ensures (GuardPasses(pos, size, length) <==> pos + length <= size) <==> length <= size + 1
    ensures pos + length <= size ==> GuardPasses(pos, size, length)
  {
  }

  /** Contents octets come from the buffer, which does not end with the packet. */
  function ContentAt(p: seq<Byte>, behind: seq<Byte>, pos: nat, length: nat): Parse<seq<Byte>> {
    if !GuardPasses(pos, |p|, length) then Malformed
    else if pos + length > |p| + |behind| then Overrun
    else Parsed((p + behind)[pos..pos + length])
  }

  /** Contents that lie within the packet are read from it, wherever the guard stands. */
  lemma ContentInside(p: seq<Byte>, behind: seq<Byte>, pos: nat, length: nat)
    requires pos + length <= |p| <= MAX_PACKET_SIZE
    ensures ContentAt(p, behind, pos, length) == Parsed(p[pos..pos + length])
  {
    hide GuardPasses;
    GuardMeaning(pos, |p|, length);
    assert (p + behind)[pos..pos + length] == p[pos..pos + length];
  }

  datatype Head = Head(tag: Byte, length: nat, next: nat)

  /** Type and length at `pos`; lengths take at most two further octets, and the indefinite
      form 0x80 reads as length 0. */
  function HeadAt(p: seq<Byte>, pos: nat): (r: Parse<Head>)
    ensures r.Parsed? ==> pos + 2 <= r.value.next <= |p| && r.value.length <= 0xFFFF
  {
    if pos + 2 > |p| || !SupportedTag(p[pos]) then Malformed
    else if p[pos + 1] < 0x80 then Parsed(Head(p[pos], p[pos + 1], pos + 2))
    else
      var k := p[pos + 1] - 0x80;
      if k > 2 || pos + 2 + k > |p| then Malformed
      else Parsed(Head(p[pos], ShortLength(p[pos + 2..pos + 2 + k]), pos + 2 + k))
  }

  function ShortLength(c: seq<Byte>): (n: nat)
    requires |c| <= 2
    ensures n <= 0xFFFF
  {
    if |c| == 0 then 0 else if |c| == 1 then c[0] else c[0] as int * 0x100 + c[1]
  }

  /** An INTEGER of any length, reduced modulo 2^32, and the position after it, which may lie
      behind the packet. */
  function IntegerAt(p: seq<Byte>, behind: seq<Byte>, pos: nat): (r: Parse<(Int32, nat)>)
    ensures r.Parsed? ==> pos < r.value.1
  {
    var h :- HeadAt(p, pos);
    if h.tag != INTEGER || h.length < 1 then Malformed
    else
      var c :- ContentAt(p, behind, h.next, h.length);
      Parsed((ToSigned(Wrap(SignedValue(c))), h.next + h.length))
  }

  function VersionAt(p: seq<Byte>, behind: seq<Byte>, pos: nat): (r: Parse<(Int32, nat)>)
    ensures r.Parsed? ==> pos < r.value.1
    ensures r.Parsed? ==> r.value.0 == SNMP_VERSION_1 || r.value.0 == SNMP_VERSION_2C
  {
    var h :- HeadAt(p, pos);
    if h.tag != INTEGER || h.length != 1 then Malformed
    else
      var v :- IntegerAt(p, behind, pos);
      if v.0 != SNMP_VERSION_1 && v.0 != SNMP_VERSION_2C then Malformed else Parsed(v)
  }

  /** A C string: what comes before the first NUL. */
  function CString(c: seq<Byte>): (s: seq<Byte>)
    ensures |s| <= |c| && 0 !in s
  {
    if c == [] || c[0] == 0 then [] else [c[0]] + CString(c[1..])
  }

  predicate CommunityName(c: seq<Byte>) {
    1 <= |c| < MAX_STRING_SIZE && 0 !in c
  }

  function CommunityAt(p: seq<Byte>, behind: seq<Byte>, pos: nat): (r: Parse<(seq<Byte>, nat)>)
    ensures r.Parsed? ==> pos < r.value.1 && CommunityName(r.value.0)
  {
    var h :- HeadAt(p, pos);
    if h.tag != OCTET_STRING || h.length >= MAX_STRING_SIZE then Malformed
    else
      var c :- ContentAt(p, behind, h.next, h.length);
      if CString(c) == [] then Malformed else Parsed((CString(c), h.next + h.length))
  }

  /** The size recorded for an OID whose contents took `n` octets. */
  function DecodedLength(n: nat): nat {
    n + (if n > 0xFF then 4 else if n > 0x7F then 3 else 2)
  }

  /** An OID as the decoder leaves it: one that an octet can start, with the size of the octets
      read, which are never fewer than the encoder would write. */
  predicate Decoded(o: Oid) {
    Canonical(o.subids) && |OidTlv(o.subids)| <= o.encodedLength <= MAX_PACKET_SIZE + 4
  }

  /** The size recorded for an OID that came as `c` is exact just when `c` has as many octets
      as the encoder's form; minimal contents always do. */
  lemma RecordedSize(c: seq<Byte>)
    requires OidOf(c).Some? && |c| <= 0xFFFF
    ensures var o := Oid(OidOf(c).value, DecodedLength(|c|));
            && Canonical(o.subids) && |OidTlv(o.subids)| <= o.encodedLength
            && (Exact(o) <==> |OidContent(o.subids)| == |c|)
            && (MinimalOid(c) ==> Exact(o))
  {
    var content := OidContent(OidOf(c).value);
    OidReencode(c);
    HeaderForms(OID, |c|);
    HeaderMonotone(OID, |content|, |c|);
  }

  /** The OID with `length` octets of contents. One that would go on beyond the buffer is given
      up if it has too many subidentifiers before. */
  function OidContentAt(p: seq<Byte>, behind: seq<Byte>, pos: nat, length: nat): (r: Parse<Oid>)
    requires pos <= |p| && length <= 0xFFFF
    ensures r.Parsed? ==> r.value.Valid()
    ensures r.Parsed? && |p| + |behind| <= MAX_PACKET_SIZE ==> Decoded(r.value)
  {
    if !GuardPasses(pos, |p|, length) then Malformed
    else if pos + length > |p| + |behind| then
      if GivesUp((p + behind)[pos..]) then Malformed else Overrun
    else
      var c := (p + behind)[pos..pos + length];
      match OidOf(c)
      case None => Malformed
      case Some(subids) =>
        RecordedSize(c);
        Parsed(Oid(subids, DecodedLength(length)))
  }

  function OidAt(p: seq<Byte>, behind: seq<Byte>, pos: nat): (r: Parse<(Oid, nat)>)
    ensures r.Parsed? ==> pos < r.value.1 && r.value.0.Valid()
    ensures r.Parsed? && |p| + |behind| <= MAX_PACKET_SIZE ==> Decoded(r.value.0)
  {
    var h :- HeadAt(p, pos);
    if h.tag != OID || h.length < 1 then Malformed
    else
      var o :- OidContentAt(p, behind, h.next, h.length);
      Parsed((o, h.next + h.length))
  }

  /** A value is skipped without a look at its octets; only NULL may be empty, and it has to
      be. The position after it may lie anywhere behind the packet. */
  function ValueAt(p: seq<Byte>, pos: nat): (r: Parse<nat>)
    ensures r.Parsed? ==> pos < r.value
    ensures !r.Overrun?
  {
    var h :- HeadAt(p, pos);
    if (h.tag == NULL <==> h.length != 0) || !GuardPasses(h.next, |p|, h.length) then Malformed
    else Parsed(h.next + h.length)
  }

  function BindingAt(p: seq<Byte>, behind: seq<Byte>, pos: nat): (r: Parse<(Oid, nat)>)
    ensures r.Parsed? ==> pos < r.value.1 && r.value.0.Valid()
    ensures r.Parsed? && |p| + |behind| <= MAX_PACKET_SIZE ==> Decoded(r.value.0)
  {
    var h :- HeadAt(p, pos);
    if h.tag != SEQUENCE || h.length < 1 then Malformed
    else
      var o :- OidAt(p, behind, h.next);
      var next :- ValueAt(p, o.1);
      Parsed((o.0, next))
  }

  /** The names of the bindings up to the end of the packet, and where the last one ends. */
  function BindingsAt(p: seq<Byte>, behind: seq<Byte>, pos: nat, got: nat): (r: Parse<(seq<Oid>, nat)>)
    ensures r.Parsed? ==> r.value.1 >= |p|
    ensures r.Parsed? && got <= MAX_NR_OIDS ==> got + |r.value.0| <= MAX_NR_OIDS
    ensures r.Parsed? ==> forall i :: 0 <= i < |r.value.0| ==> r.value.0[i].Valid()
    ensures r.Parsed? && |p| + |behind| <= MAX_PACKET_SIZE ==>
              forall i :: 0 <= i < |r.value.0| ==> Decoded(r.value.0[i])
    decreases |p| - pos
  {
    if pos >= |p| then Parsed(([], pos))
    else if got >= MAX_NR_OIDS then Malformed
    else
      var b :- BindingAt(p, behind, pos);
      var rest :- BindingsAt(p, behind, b.1, got + 1);
      Parsed(([b.0] + rest.0, rest.1))
  }

  /** What every accepted request satisfies. */
  predicate Accepted(m: Message) {
    && (m.version == SNMP_VERSION_1 || m.version == SNMP_VERSION_2C)
    && CommunityName(m.community)
    && |m.oids| <= MAX_NR_OIDS
    && forall i :: 0 <= i < |m.oids| ==> Decoded(m.oids[i])
  }

  /** The fields of a PDU that takes up the rest of the packet. */
  function BodyAt(p: seq<Byte>, behind: seq<Byte>, pos: nat, version: Int32, community: seq<Byte>, pdu: Byte)
    : (r: Parse<(Message, nat)>)
    ensures r.Parsed? ==> r.value.0.version == version && r.value.0.community == community
    ensures r.Parsed? ==> |r.value.0.oids| <= MAX_NR_OIDS && r.value.1 >= |p|
    ensures r.Parsed? && |p| + |behind| <= MAX_PACKET_SIZE ==>
              forall i :: 0 <= i < |r.value.0.oids| ==> Decoded(r.value.0.oids[i])
  {
    var id :- IntegerAt(p, behind, pos);
    var first :- IntegerAt(p, behind, id.1);
    var second :- IntegerAt(p, behind, first.1);
    var list :- HeadAt(p, second.1);
    if list.tag != SEQUENCE || list.length != |p| - list.next then Malformed
    else
      var oids :- BindingsAt(p, behind, list.next, 0);
      Parsed((Message(version, community, pdu, id.0, first.0, second.0, oids.0), oids.1))
  }

  function PduAt(p: seq<Byte>, behind: seq<Byte>, pos: nat, version: Int32, community: seq<Byte>)
    : (r: Parse<(Message, nat)>)
    ensures r.Parsed? ==> r.value.0.version == version && r.value.0.community == community
    ensures r.Parsed? ==> |r.value.0.oids| <= MAX_NR_OIDS && r.value.1 >= |p|
    ensures r.Parsed? && |p| + |behind| <= MAX_PACKET_SIZE ==>
              forall i :: 0 <= i < |r.value.0.oids| ==> Decoded(r.value.0.oids[i])
  {
    var pdu :- HeadAt(p, pos);
    if pdu.length != |p| - pdu.next then Malformed
    else BodyAt(p, behind, pdu.next, version, community, pdu.tag)
  }

  /** The request in a packet, and the position at which the decoder is done. */
  function RequestAt(p: seq<Byte>, behind: seq<Byte>): (r: Parse<(Message, nat)>)
    ensures r.Parsed? ==> r.value.1 >= |p|
    ensures r.Parsed? && |p| + |behind| <= MAX_PACKET_SIZE ==> Accepted(r.value.0)
  {
    var outer :- HeadAt(p, 0);
    if outer.tag != SEQUENCE || outer.length != |p| - outer.next then Malformed
    else
      var version :- VersionAt(p, behind, outer.next);
      var community :- CommunityAt(p, behind, version.1);
      PduAt(p, behind, community.1, version.0, community.0)
  }

  function ParseRequest(p: seq<Byte>, behind: seq<Byte>): (r: Parse<Message>)
    ensures r.Parsed? && |p| + |behind| <= MAX_PACKET_SIZE ==> Accepted(r.value)
  {
    var r :- RequestAt(p, behind);
    Parsed(r.0)
  }
}
