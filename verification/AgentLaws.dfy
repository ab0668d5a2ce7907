/** What a client can rely on, over whole exchanges of octets with the agent. */
module AgentLaws {
  import opened Types
  import opened Machine
  import opened Ber
  import opened OidCodec
  import opened OidOrder
  import opened Answers
  import opened AnswerLaws
  import opened Messages
  import opened RoundTrip
  import opened Grammar
  import opened Decoder
  import opened Writer
  import opened Encoder
  import opened Mib
  import opened MibTable
  import opened Handlers
  import opened Snmp

  // ----- waiting for a packet -----

  /** While a packet arrives that is complete in the end, the agent waits for the first 25
      octets, then calls every proper prefix broken. So one that arrives in pieces survives only
      if no piece ends at octet 25 or later. */
  lemma ArrivingPacket(p: seq<Byte>, k: nat)
    requires Completeness(p) == 1 && k <= |p|
    ensures Completeness(p[..k]) == if k < 25 then 0 else if k < |p| then -1 else 1
  {
    hide HeadAt;
    if k >= 25 {
      SameHead(p[..k], p);
    }
  }

  /** From 25 octets on the agent says "wait" exactly if it already has more octets than a valid
      header announces, when there is nothing to wait for, and "complete" exactly if it has as
      many. */
  lemma WaitsForNothing(p: seq<Byte>)
    requires |p| >= 25
    ensures Completeness(p) == 0
            <==> && HeadAt(p, 0).Parsed?
                 && var h := HeadAt(p, 0).value; h.tag == SEQUENCE && 0 < h.length && h.next + h.length < |p|
    ensures Completeness(p) == 1
            <==> && HeadAt(p, 0).Parsed?
                 && var h := HeadAt(p, 0).value; h.tag == 0x30 && 0 < h.length && h.next + h.length == |p|
    ensures Completeness(p) == 0 ==> forall more: seq<Byte> :: Completeness(p + more) != 1
  {
    hide SupportedTag;
    forall more: seq<Byte> | Completeness(p) == 0
      ensures Completeness(p + more) != 1
    {
      SameHead(p, p + more);
    }
  }

  /** The first header of a packet does not depend on what comes after it. */
  lemma SameHead(p: seq<Byte>, q: seq<Byte>)
    requires 4 <= |p| && p <= q
    ensures HeadAt(p, 0) == HeadAt(q, 0)
  {
    hide SupportedTag;
    assert p[0] == q[0] && p[1] == q[1] && p[2..3] == q[2..3] && p[2..4] == q[2..4];
    assert p[2..2] == q[2..2];
  }

  /** Every serialized message of at least 25 octets is complete. */
  lemma MessageIsComplete(m: Message, bs: seq<Binding>)
    requires ValidBindings(bs)
    requires |Serialize(MessageTree(m, bs))| <= MAX_PACKET_SIZE
    ensures Completeness(Serialize(MessageTree(m, bs))) == if |Serialize(MessageTree(m, bs))| < 25 then 0 else 1
  {
    hide Header, IntegerTlv, StringTlv, MessageTree, Serialize, HeadAt;
    SerializeMessage(m, bs);
    var body := MessageBody(m, Pdu(m, BindingsBytes(bs)));
    HeadRoundTrip(Tlv(SEQUENCE, body), 0, SEQUENCE, |body|);
  }

  lemma ShortHeader(n: nat)
    requires n <= 0xFFFF
    ensures 2 <= |Header(SEQUENCE, n)| <= 4
  {
    HeaderForms(SEQUENCE, n);
  }

  // ----- an overlong value -----

  /** A request whose last value announces far more than there is gets the answer to what it asks
      for, whatever lies behind it. */
  lemma OpenValueAnswered(table: seq<Binding>, cfg: Config, behind: seq<Byte>)
    requires |OPEN_VALUE| + |behind| == MAX_PACKET_SIZE && ValidBindings(table) && AllFit(table)
    ensures var m := Message(SNMP_VERSION_2C, [0x70], SNMP_GET, 1, 0, 0, [Oid([1, 3], 3)]);
            && Accepted(m)
            && Respond(table, cfg, OPEN_VALUE, behind) == Outgoing(table, cfg, m, OPEN_VALUE + behind)
  {
    hide RequestAt, Outgoing, Accepted, AllFit;
    OpenValueAccepted(behind);
  }

  // ----- conservation -----

  /** The bindings that go out for a decision. */
  function Sent(m: Message, v: Verdict): seq<Binding>
    requires v.Send? || v.Refuse?
  {
    if v.Send? then v.bindings else NullBindings(m.oids, NULL_BYTES)
  }

  /** A GET or GETNEXT is always answered, with one binding per name asked for. A GET keeps the
      names; a GETNEXT that is not refused gives a later name or, under endOfMibView, the same. */
  lemma Conservation(table: seq<Binding>, cfg: Config, m: Message)
    requires Accepted(m) && (m.pdu == SNMP_GET || m.pdu == SNMP_GETNEXT)
    ensures var v := Decide(table, cfg, m);
            && (v.Send? || v.Refuse?)
            && |Sent(m, v)| == |m.oids|
            && (m.pdu == SNMP_GET ==>
                  forall i :: 0 <= i < |m.oids| ==> Sent(m, v)[i].oid.subids == m.oids[i].subids)
            && (m.pdu == SNMP_GETNEXT && v.Send? ==>
                  forall i :: 0 <= i < |m.oids| ==>
                    Sent(m, v)[i] == Binding(m.oids[i], ExceptionBytes(EndOfMibView))
                    || Cmp(Sent(m, v)[i].oid.subids, m.oids[i].subids) > 0)
  {
  }

  /** A version 1 GET, once admitted, sends the entries of all names asked for if the table has
      all of them, and otherwise an error with the place of the first name it has not. */
  lemma VersionOneGet(table: seq<Binding>, cfg: Config, m: Message)
    requires Accepted(m) && m.version == SNMP_VERSION_1 && !cfg.auth && m.pdu == SNMP_GET
    requires Ascending(BindingOids(table)) && LowTable(BindingOids(table))
    ensures match Decide(table, cfg, m)
            case Send(bs) =>
              |bs| == |m.oids|
              && forall i :: 0 <= i < |bs| ==> bs[i] in table && bs[i].oid.subids == m.oids[i].subids
            case Refuse(status, index) =>
              && status == STATUS_NO_SUCH_NAME && 0 <= index < |m.oids|
              && !HasName(table, m.oids[index].subids)
              && forall i :: 0 <= i < index ==> HasName(table, m.oids[i].subids)
            case _ => false
  {
    hide Decoded, Find, Ascending, LowTable;
    var mib := BindingOids(table);
    GetInTable(mib, m.oids);
    var answers := GetAnswers(mib, m.oids);
    forall i | 0 <= i < |m.oids|
      ensures answers[i].Stored? <==> HasName(table, m.oids[i].subids)
      ensures answers[i].Stored? ==> AnswerBinding(table, answers[i]).oid.subids == m.oids[i].subids
    {
      NamePresent(table, m.oids[i]);
    }
    if !AllStored(answers) {
      var k := FirstMissing(answers);
      assert forall i :: 0 <= i < k ==> answers[..k][i] == answers[i];
    }
  }

  /** Likewise for a version 1 GETNEXT: the successors of all names, or an error with the place of
      the first name that no entry follows. */
  lemma VersionOneNext(table: seq<Binding>, cfg: Config, m: Message)
    requires Accepted(m) && m.version == SNMP_VERSION_1 && !cfg.auth && m.pdu == SNMP_GETNEXT
    requires Ascending(BindingOids(table))
    ensures match Decide(table, cfg, m)
            case Send(bs) =>
              |bs| == |m.oids| && forall i :: 0 <= i < |bs| ==> IsSuccessor(table, m.oids[i].subids, bs[i])
            case Refuse(status, index) =>
              && status == STATUS_NO_SUCH_NAME && 0 <= index < |m.oids|
              && NoneAbove(table, m.oids[index].subids)
              && forall i :: 0 <= i < index ==> !NoneAbove(table, m.oids[i].subids)
            case _ => false
  {
    hide Decoded, FindNext, Ascending, IsSuccessor, NoneAbove;
    var mib := BindingOids(table);
    NextInTable(mib, m.oids);
    var answers := NextAnswers(mib, m.oids);
    forall i | 0 <= i < |m.oids|
      ensures answers[i].Missing? <==> NoneAbove(table, m.oids[i].subids)
      ensures answers[i].Stored? ==> IsSuccessor(table, m.oids[i].subids, AnswerBinding(table, answers[i]))
    {
      NextMeaning(table, m.oids[i]);
    }
    if !AllStored(answers) {
      var k := FirstMissing(answers);
      assert forall i :: 0 <= i < k ==> answers[..k][i] == answers[i];
    }
  }

  predicate NoneAbove(table: seq<Binding>, key: Subids) {
    forall i :: 0 <= i < |table| ==> Cmp(table[i].oid.subids, key) <= 0
  }

  /** `b` is the least entry above `key`. */
  predicate IsSuccessor(table: seq<Binding>, key: Subids, b: Binding) {
    && b in table && Cmp(b.oid.subids, key) > 0
    && forall i :: 0 <= i < |table| && Cmp(table[i].oid.subids, key) > 0 ==>
         Cmp(b.oid.subids, table[i].oid.subids) <= 0
  }

  lemma NextMeaning(table: seq<Binding>, o: Oid)
    requires Ascending(BindingOids(table))
    ensures var a := NextAnswer(BindingOids(table), o);
            && (a.Missing? <==> NoneAbove(table, o.subids))
            && (a.Stored? ==> a.index < |table| && IsSuccessor(table, o.subids, table[a.index]))
  {
    hide Cmp;
    var mib := BindingOids(table);
    var p := FindNext(mib, o.subids);
    if p < |table| {
      assert Above(mib, p, o.subids);
      forall i | 0 <= i < |table| && Cmp(table[i].oid.subids, o.subids) > 0
        ensures Cmp(table[p].oid.subids, table[i].oid.subids) <= 0
      {
        FindNextSplits(mib, o.subids, i);
        CmpIsTotalPreorder(table[p].oid.subids, table[i].oid.subids, table[p].oid.subids);
        assert p < i ==> Above(mib, i, mib[p].subids);
      }
    } else {
      forall i | 0 <= i < |table|
        ensures Cmp(table[i].oid.subids, o.subids) <= 0
      {
        assert !Above(mib, i, o.subids);
      }
    }
  }

  predicate HasName(table: seq<Binding>, subids: Subids) {
    exists i :: 0 <= i < |table| && table[i].oid.subids == subids
  }

  lemma NamePresent(table: seq<Binding>, o: Oid)
    requires Ascending(BindingOids(table)) && LowTable(BindingOids(table))
    ensures var a := GetAnswer(BindingOids(table), o);
            && (a.Stored? <==> HasName(table, o.subids))
            && (a.Stored? ==> a.index < |table| && table[a.index].oid.subids == o.subids)
  {
    hide GetAnswer, Ascending, LowTable;
    var mib := BindingOids(table);
    GetAnswerMeaning(mib, o, 0);
    forall i | 0 <= i < |table| && table[i].oid.subids == o.subids
      ensures GetAnswer(mib, o) == Stored(i)
    {
      GetAnswerMeaning(mib, o, i);
    }
    if GetAnswer(mib, o).Stored? {
      GetAnswerMeaning(mib, o, GetAnswer(mib, o).index);
    }
  }

  // ----- sizes of small messages -----

  /** A message with one binding leaves room for a value of more than 1800 octets. */
  lemma OneBindingFits(m: Message, b: Binding)
    requires CommunityName(m.community) && Canonical(b.oid.subids) && Exact(b.oid) && |b.value| <= 1800
    ensures |Serialize(MessageTree(m, [b]))| == ReplySize(m, [b]) <= MAX_PACKET_SIZE
  {
    hide Header, IntegerTlv, StringTlv, MessageTree, Serialize, OidTlv, Canonical, CommunityName;
    ReplySizeIsExact(m, [b]);
    assert BindingsSize([b]) == BindingSize(b) by { assert [b][1..] == []; }
    OidTlvIsShort(b.oid.subids);
    CommunityIsShort(m.community);
    IntegerRoom(m.version);
    IntegerRoom(m.id);
    IntegerRoom(m.nonRepeaters);
    IntegerRoom(m.maxRepetitions);
    SmallSequence(b.oid.encodedLength + |b.value|);
    SmallSequence(BindingSize(b));
    var n := |IntegerTlv(m.id)| + |IntegerTlv(m.nonRepeaters)| + |IntegerTlv(m.maxRepetitions)|
             + SequenceSize(BindingSize(b));
    SmallSequence(n);
    SmallSequence(|IntegerTlv(m.version)| + |StringTlv(m.community)| + SequenceSize(n));
  }

  lemma SmallSequence(n: nat)
    requires n <= 0xFFFF
    ensures n < SequenceSize(n) <= n + 4
  {
    ShortHeader(n);
  }

  lemma OidTlvIsShort(subids: seq<UInt32>)
    requires Canonical(subids)
    ensures |OidTlv(subids)| <= 73
  {
    OidIsShort(subids);
    HeaderForms(OID, |OidContent(subids)|);
  }

  lemma CommunityIsShort(c: seq<Byte>)
    requires CommunityName(c)
    ensures |StringTlv(c)| <= 65
  {
    HeaderForms(OCTET_STRING, |c|);
  }

  // ----- a walk over the wire -----

  /** What the packet buffer of the agent may hold before an exchange. */
  type Buffer = b: seq<Byte> | |b| == MAX_PACKET_SIZE witness seq(MAX_PACKET_SIZE, _ => 0)

  /** A table a walk can rely on: in order, with names and values a manager can decode. */
  ghost predicate Walkable(table: seq<Binding>) {
    AllFaithful(table) && Ascending(BindingOids(table))
  }

  function Ask(cfg: Config, id: Int32, o: Oid): Message {
    Message(SNMP_VERSION_2C, cfg.community, SNMP_GETNEXT, id, 0, 0, [o])
  }

  /** A version 2c GETNEXT for one name, as a manager encodes it. */
  function AskNext(cfg: Config, id: Int32, o: Oid): seq<Byte>
    requires o.Valid()
  {
    Serialize(MessageTree(Ask(cfg, id, o), [Binding(o, NULL_BYTES)]))
  }

  /** The reply with this one binding fits the packet buffer. */
  predicate RoomFor(cfg: Config, id: Int32, b: Binding) {
    ReplySize(ResponseTo(Ask(cfg, id, b.oid), STATUS_OK, 0), [b]) <= MAX_PACKET_SIZE
  }

  lemma NullIsReadable()
    ensures Readable(NULL_BYTES)
  {
    TlvIsReadable(NULL, []);
    assert Tlv(NULL, []) == NULL_BYTES by { HeaderForms(NULL, 0); }
  }

  lemma AskedIsParsed(cfg: Config, id: Int32, o: Oid)
    requires CommunityName(cfg.community) && Canonical(o.subids) && Exact(o)
    ensures |AskNext(cfg, id, o)| <= MAX_PACKET_SIZE
    ensures forall behind :: ParseRequest(AskNext(cfg, id, o), behind) == Parsed(Ask(cfg, id, o))
  {
    hide ParseRequest, MessageTree, Serialize, ReplySize, Canonical, Exact, Readable;
    var b := Binding(o, NULL_BYTES);
    NullIsReadable();
    OneBindingFits(Ask(cfg, id, o), b);
    assert OidsOf([b]) == [o];
    forall behind
      ensures ParseRequest(AskNext(cfg, id, o), behind) == Parsed(Ask(cfg, id, o))
    {
      MessageRoundTrip(Ask(cfg, id, o), [b], behind);
    }
  }

  lemma TableIsFit(table: seq<Binding>)
    requires AllFaithful(table)
    ensures ValidBindings(table) && AllFit(table)
  {
    hide OidTlv, Readable, Canonical;
    forall i | 0 <= i < |table|
      ensures Faithful(table[i]) && table[i].oid.Valid() && Fits(table[i].oid)
    {
    }
  }

  /** One exchange, whatever the agent's buffer held before: the reply is the successor entry, if
      there is room for it, or endOfMibView under the same name. */
  lemma OneExchange(table: seq<Binding>, cfg: Config, id: Int32, o: Oid, held: Buffer)
    requires Walkable(table) && CommunityName(cfg.community) && Canonical(o.subids) && Exact(o)
    ensures ValidBindings(table) && AllFit(table) && |AskNext(cfg, id, o)| <= MAX_PACKET_SIZE
    ensures var p := FindNext(BindingOids(table), o.subids);
            var b := if p < |table| then table[p] else Binding(o, ExceptionBytes(EndOfMibView));
            && b.oid.Valid()
            && Exchange(table, cfg, AskNext(cfg, id, o), held)
               == if p < |table| && !RoomFor(cfg, id, b) then Failure
                  else Reply(Serialize(MessageTree(ResponseTo(Ask(cfg, id, o), STATUS_OK, 0), [b])))
  {
    hide ParseRequest, MessageTree, Serialize, ReplySize, AskNext, FindNext, Exact, Canonical, Readable, OidTlv,
         RoomFor, Filled, BindingsSize, AllFit, AllExact;
    var mib, m, ask := BindingOids(table), Ask(cfg, id, o), AskNext(cfg, id, o);
    var p := FindNext(mib, o.subids);
    var b := if p < |table| then table[p] else Binding(o, ExceptionBytes(EndOfMibView));
    TableIsFit(table);
    AskedIsParsed(cfg, id, o);
    OneAnswer(table, o);
    assert Decide(table, cfg, m) == Send([b]);
    assert p < |table| ==> Faithful(table[p]);
    RoomIsTheSame(cfg, id, o, b);
    if p == |table| {
      OneBindingFits(ResponseTo(m, STATUS_OK, 0), b);
    }
    OneIsExact(b);
    SentWhole(ResponseTo(m, STATUS_OK, 0), [b], ask + held[|ask|..]);
    assert Exchange(table, cfg, ask, held) == Transmit(ResponseTo(m, STATUS_OK, 0), [b], ask + held[|ask|..]);
  }

  lemma OneIsExact(b: Binding)
    requires b.oid.Valid() && Exact(b.oid)
    ensures ValidBindings([b]) && AllFit([b]) && AllExact([b])
  {
    hide OidTlv;
  }

  /** Nothing of the old buffer gets into a message whose recorded OID sizes are exact. */
  lemma SentWhole(m: Message, bs: seq<Binding>, before: seq<Byte>)
    requires ValidBindings(bs) && AllFit(bs) && AllExact(bs) && |before| == MAX_PACKET_SIZE
    ensures Transmit(m, bs, before)
            == if ReplySize(m, bs) > MAX_PACKET_SIZE then Failure else Reply(Serialize(MessageTree(m, bs)))
  {
    hide OidTlv, EnvelopeSize, MessageTree, Serialize, Filled, AllFit, AllExact;
    if ReplySize(m, bs) <= MAX_PACKET_SIZE {
      EnvelopeIsLarger(m, BindingsSize(bs));
      FilledExact(bs, before);
    }
  }

  lemma RoomIsTheSame(cfg: Config, id: Int32, o: Oid, b: Binding)
    ensures RoomFor(cfg, id, b)
            <==> ReplySize(ResponseTo(Ask(cfg, id, o), STATUS_OK, 0), [b]) <= MAX_PACKET_SIZE
  {
    hide SequenceSize, BindingsSize;
  }

  lemma OneAnswer(table: seq<Binding>, o: Oid)
    ensures var mib := BindingOids(table);
            var answers := NextAnswers(mib, [o]);
            var p := FindNext(mib, o.subids);
            && InTable(answers, |table|)
            && Settled(table, SNMP_VERSION_2C, answers)
               == Send([if p < |table| then table[p] else Binding(o, ExceptionBytes(EndOfMibView))])
  {
    hide FindNext;
    NextInTable(BindingOids(table), [o]);
    assert NextAnswers(BindingOids(table), [o]) == [NextAnswer(BindingOids(table), o)];
  }

  /** A packet that arrives where the buffer held `held`. */
  function Exchange(table: seq<Binding>, cfg: Config, p: seq<Byte>, held: Buffer): Outcome
    requires ValidBindings(table) && AllFit(table) && |p| <= MAX_PACKET_SIZE
  {
    Respond(table, cfg, p, held[|p|..])
  }

  /** The names a manager decodes from `n` replies when it asks for each in turn, starting
      after `o`; None if a reply is missing or not one name. */
  function Walk(table: seq<Binding>, cfg: Config, id: Int32, o: Oid, n: nat, held: nat -> Buffer): Option<seq<Oid>>
    requires ValidBindings(table) && AllFit(table)
    decreases n
  {
    if n == 0 then Some([])
    else if !o.Valid() || |AskNext(cfg, id, o)| > MAX_PACKET_SIZE then None
    else
      match Exchange(table, cfg, AskNext(cfg, id, o), held(n))
      case Reply(bytes) =>
        (match ParseRequest(bytes, [])
         case Parsed(r) =>
           if |r.oids| != 1 then None
           else Prepend(r.oids, Walk(table, cfg, id, r.oids[0], n - 1, held))
         case _ => None)
      case _ => None
  }

  lemma ReplyIsParsed(m: Message, b: Binding)
    requires Sendable(m) && Faithful(b) && ReplySize(m, [b]) <= MAX_PACKET_SIZE
    ensures ParseRequest(Serialize(MessageTree(m, [b])), []) == Parsed(m.(oids := [b.oid]))
  {
    hide ParseRequest, MessageTree, Serialize, ReplySize, OidTlv;
    ReplySizeIsExact(m, [b]);
    MessageRoundTrip(m, [b], []);
    assert OidsOf([b]) == [b.oid];
  }

  predicate AllRoom(table: seq<Binding>, cfg: Config, id: Int32, from: nat, to: nat) {
    forall i :: from <= i < to && i < |table| ==> RoomFor(cfg, id, table[i])
  }

  /** From any name on, the replies are the entries that follow it, none left out and none
      repeated, as the manager decodes them; the walk breaks off exactly if one of them does not
      fit the packet buffer. */
  lemma {:induction false} WalkReadsOn(table: seq<Binding>, cfg: Config, id: Int32, o: Oid, n: nat,
                                       held: nat -> Buffer)
    requires Walkable(table) && CommunityName(cfg.community) && Canonical(o.subids) && Exact(o)
    requires FindNext(BindingOids(table), o.subids) + n <= |table|
    ensures ValidBindings(table) && AllFit(table)
    ensures var p := FindNext(BindingOids(table), o.subids);
            Walk(table, cfg, id, o, n, held)
            == if AllRoom(table, cfg, id, p, p + n) then Some(BindingOids(table)[p..p + n]) else None
    decreases n
  {
    hide ParseRequest, MessageTree, Serialize, AskNext, FindNext, Respond, Exact, Canonical, Readable, AllFit,
         Ascending, RoomFor, ReplySize, Exchange;
    var mib := BindingOids(table);
    var p := FindNext(mib, o.subids);
    TableIsFit(table);
    if n > 0 {
      OneExchange(table, cfg, id, o, held(n));
      assert Faithful(table[p]);
      assert AllRoom(table, cfg, id, p, p + n)
          <==> RoomFor(cfg, id, table[p]) && AllRoom(table, cfg, id, p + 1, p + n);
      if RoomFor(cfg, id, table[p]) {
        RoomIsTheSame(cfg, id, o, table[p]);
        ReplyIsParsed(ResponseTo(Ask(cfg, id, o), STATUS_OK, 0), table[p]);
        NextOfEntry(mib, p);
        AskedIsParsed(cfg, id, o);
        WalkReadsOn(table, cfg, id, table[p].oid, n - 1, held);
        assert table[p].oid == mib[p];
        assert Walk(table, cfg, id, o, n, held)
            == Prepend([mib[p]], Walk(table, cfg, id, table[p].oid, n - 1, held));
        SliceCons(mib, p, n);
        assert AllRoom(table, cfg, id, p + 1, p + 1 + (n - 1)) <==> AllRoom(table, cfg, id, p, p + n);
      } else {
        assert Exchange(table, cfg, AskNext(cfg, id, o), held(n)) == Failure;
      }
    } else {
      assert mib[p..p] == [];
    }
  }

  lemma SliceCons<T>(s: seq<T>, p: nat, n: nat)
    requires 0 < n && p + n <= |s|
    ensures [s[p]] + s[p + 1..p + 1 + (n - 1)] == s[p..p + n]
  {
  }

  /** A walk from below the first entry visits every entry once, in order, exactly if every
      entry fits a reply; after the last entry the agent says that the table has ended. */
  lemma WalkIsComplete(table: seq<Binding>, cfg: Config, id: Int32, start: Oid, held: nat -> Buffer)
    requires Walkable(table) && CommunityName(cfg.community) && Canonical(start.subids) && Exact(start)
    requires FindNext(BindingOids(table), start.subids) == 0
    ensures ValidBindings(table) && AllFit(table)
    ensures Walk(table, cfg, id, start, |table|, held) == Some(BindingOids(table))
            <==> forall i :: 0 <= i < |table| ==> RoomFor(cfg, id, table[i])
    ensures var last := if |table| > 0 then table[|table| - 1].oid else start;
            && last.Valid() && |AskNext(cfg, id, last)| <= MAX_PACKET_SIZE
            && Exchange(table, cfg, AskNext(cfg, id, last), held(0))
               == Reply(Serialize(MessageTree(ResponseTo(Ask(cfg, id, last), STATUS_OK, 0),
                                              [Binding(last, ExceptionBytes(EndOfMibView))])))
  {
    hide ParseRequest, MessageTree, Serialize, AskNext, FindNext, Respond, Exact, Canonical, Readable, AllFit,
         Ascending, Walk, RoomFor, Exchange;
    var mib := BindingOids(table);
    WalkReadsOn(table, cfg, id, start, |table|, held);
    assert mib[0..|table|] == mib;
    if |table| > 0 {
      var q := |table| - 1;
      assert Faithful(table[q]);
      NextOfEntry(mib, q);
      OneExchange(table, cfg, id, table[q].oid, held(0));
    } else {
      OneExchange(table, cfg, id, start, held(0));
    }
  }

  /** The table that `mib_build` and `mib_update` maintain is one such table, whatever the
      values are. */
  lemma SdkTableIsWalkable(mib: Mib, demo: bool, words: seq<UInt32>)
    requires Built(mib, demo) && Holds(mib, words)
    ensures Walkable(mib.View())
    ensures forall i :: 0 <= i < |mib.View()| ==> |mib.View()[i].value| <= 6
  {
    hide IntegerTlv, Cells, CellSubids, Canonical, Exact, Readable;
    var table := mib.View();
    TableOids(mib);
    CellsMakeATable(Oids(mib.entries), demo);
    forall i | 0 <= i < |table|
      ensures Faithful(table[i]) && |table[i].value| <= 6
    {
      assert table[i].oid == Oids(mib.entries)[i];
      assert ValidEntry(mib.entries[i]);
      IntegerIsReadable(ToSigned(words[i]));
    }
  }

  lemma IntegerIsReadable(v: Int32)
    ensures |IntegerTlv(v)| <= 6 && Readable(IntegerTlv(v))
  {
    IntegerRoom(v);
    TlvIsReadable(INTEGER, IntegerContent(v));
  }

  /** So a walk over this agent from the top of the tree names all of its cells, whatever
      values they hold. */
  lemma SdkWalk(mib: Mib, demo: bool, words: seq<UInt32>, cfg: Config, id: Int32, held: nat -> Buffer)
    requires Built(mib, demo) && Holds(mib, words) && CommunityName(cfg.community)
    ensures ValidBindings(mib.View()) && AllFit(mib.View())
    ensures Walk(mib.View(), cfg, id, Oid([1, 3], 3), |Cells(demo)|, held) == Some(Oids(mib.entries))
  {
    hide IntegerTlv, Canonical, Exact, Readable, Walk, AllFit, FindNext, ReplySize, MessageTree, Serialize;
    var start := Oid([1, 3], 3);
    SdkTableIsWalkable(mib, demo, words);
    TableOids(mib);
    TopName();
    FirstCell(Oids(mib.entries), demo);
    forall i | 0 <= i < |mib.View()|
      ensures RoomFor(cfg, id, mib.View()[i])
    {
      assert Faithful(mib.View()[i]);
      OneBindingFits(ResponseTo(Ask(cfg, id, mib.View()[i].oid), STATUS_OK, 0), mib.View()[i]);
    }
    WalkIsComplete(mib.View(), cfg, id, start, held);
  }

  lemma TopName()
    ensures Canonical([1, 3]) && Exact(Oid([1, 3], 3))
  {
    assert SubidsContent([]) == [];
    assert OidContent([1, 3]) == [43];
    HeaderForms(OID, 1);
  }

  lemma FirstCell(mib: seq<Oid>, demo: bool)
    requires HoldsCells(mib, Cells(demo))
    ensures FindNext(mib, [1, 3]) == 0
  {
    hide Cmp;
    var first, top: Subids := mib[0].subids, [1, 3];
    CellsMakeATable(mib, demo);
    CellIsCanonical(demo, 0);
    assert top <= first;
    LexPrefix(top, first, [], []);
    LexZero(top, first);
    LowCmp(top, first);
    CmpIsTotalPreorder(first, top, first);
    assert Above(mib, 0, top);
  }
}
