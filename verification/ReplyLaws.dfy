/** When a reply is, octet for octet, the message it stands for, and what it is otherwise. */
module ReplyLaws {
  import opened Types
  import opened Machine
  import opened Ber
  import opened OidCodec
  import opened Answers
  import opened AnswerLaws
  import opened Messages
  import opened RoundTrip
  import opened Decoder
  import opened Encoder
  import opened MibTable
  import opened Handlers
  import opened Snmp
  import opened AgentLaws

  // ----- names sent back under an exception -----

  /** The name at place `i` is sent back as it came, under an exception. */
  predicate SentBack(table: seq<Binding>, m: Message, i: nat)
    requires i < |m.oids|
  {
    var mib, o := BindingOids(table), m.oids[i];
    if m.pdu == SNMP_GET then GetAnswer(mib, o).Missing?
    else FindNext(mib, o.subids) == |mib|
         && (m.pdu == SNMP_GETBULK ==> i < Singles(m.nonRepeaters, m.oids) || m.maxRepetitions > 0)
  }

  /** The names sent back come with exactly the size the agent gives them. */
  predicate ExactSentBack(table: seq<Binding>, m: Message)
    requires AllDecoded(m.oids)
  {
    forall i :: 0 <= i < |m.oids| && SentBack(table, m, i) ==> Exact(m.oids[i])
  }

  predicate ExactAnswers(answers: seq<Answer>) {
    forall i :: 0 <= i < |answers| && answers[i].Missing? ==> answers[i].oid.Valid() && Exact(answers[i].oid)
  }

  predicate ExactNames(oids: seq<Oid>) {
    forall i :: 0 <= i < |oids| ==> oids[i].Valid() && Exact(oids[i])
  }

  /** Exactly the names past the end of the table are sent back in place of a successor. */
  predicate ExactEnds(mib: seq<Oid>, oids: seq<Oid>) {
    forall i :: 0 <= i < |oids| && FindNext(mib, oids[i].subids) == |mib| ==> oids[i].Valid() && Exact(oids[i])
  }

  lemma NextEnds(mib: seq<Oid>, oids: seq<Oid>)
    ensures ExactAnswers(NextAnswers(mib, oids)) <==> ExactEnds(mib, oids)
  {
    hide Exact, FindNext;
    var answers := NextAnswers(mib, oids);
    assert forall i :: 0 <= i < |oids| ==> answers[i] == NextAnswer(mib, oids[i]);
  }

  lemma {:induction false} IterateOrigin(mib: seq<Oid>, o: Oid, j: nat)
    ensures Iterate(mib, o, j) in mib || (Iterate(mib, o, j) == o && (j > 0 ==> FindNext(mib, o.subids) == |mib|))
  {
    hide FindNext;
    if j > 0 {
      IterateOrigin(mib, o, j - 1);
    }
  }

  lemma RoundEnds(mib: seq<Oid>, repeaters: seq<Oid>, j: nat)
    requires ExactNames(mib) && ExactEnds(mib, repeaters)
    ensures ExactAnswers(Round(mib, repeaters, j))
  {
    hide Exact, FindNext, Iterate;
    forall k | 0 <= k < |repeaters| && NextAnswer(mib, Iterate(mib, repeaters[k], j)).Missing?
      ensures Iterate(mib, repeaters[k], j).Valid() && Exact(Iterate(mib, repeaters[k], j))
    {
      IterateOrigin(mib, repeaters[k], j);
    }
  }

  lemma {:induction false} RoundsEnds(mib: seq<Oid>, repeaters: seq<Oid>, n: nat)
    requires ExactNames(mib)
    ensures ExactAnswers(Concat(RoundOf(mib, repeaters), n)) <==> n == 0 || ExactEnds(mib, repeaters)
  {
    hide ExactNames, ExactEnds, NextAnswers, Round;
    var row := RoundOf(mib, repeaters);
    if n == 1 {
      assert Concat(row, 0) == [] && Concat(row, 1) == Round(mib, repeaters, 0);
      FirstRound(mib, repeaters);
      NextEnds(mib, repeaters);
    } else if n > 1 {
      RoundsEnds(mib, repeaters, n - 1);
      AnswersSplit(Concat(row, n - 1), row(n - 1));
      if ExactEnds(mib, repeaters) {
        RoundEnds(mib, repeaters, n - 1);
      }
    }
  }

  lemma FirstRound(mib: seq<Oid>, repeaters: seq<Oid>)
    ensures Round(mib, repeaters, 0) == NextAnswers(mib, repeaters)
  {
    hide NextAnswer;
  }

  lemma AnswersSplit(a: seq<Answer>, b: seq<Answer>)
    ensures ExactAnswers(a + b) <==> ExactAnswers(a) && ExactAnswers(b)
  {
    hide Exact;
    var s := a + b;
    assert forall i :: 0 <= i < |a| ==> s[i] == a[i];
    assert forall i :: 0 <= i < |b| ==> s[|a| + i] == b[i];
  }

  lemma RoundsStart(mib: seq<Oid>, repeaters: seq<Oid>, limit: nat)
    ensures RoundCount(mib, repeaters, limit) == 0 <==> limit == 0
  {
  }

  lemma BulkEndsExactly(mib: seq<Oid>, nonRepeaters: Int32, maxRepetitions: Int32, oids: seq<Oid>)
    requires ExactNames(mib)
    ensures var n := Singles(nonRepeaters, oids);
            ExactAnswers(BulkAnswers(mib, nonRepeaters, maxRepetitions, oids))
            <==> ExactEnds(mib, oids[..n]) && (maxRepetitions > 0 ==> ExactEnds(mib, oids[n..]))
  {
    hide ExactNames, ExactEnds, ExactAnswers, NextAnswers, Concat, RoundOf, RoundCount;
    var n := Singles(nonRepeaters, oids);
    var rounds := RoundCount(mib, oids[n..], Clamp(maxRepetitions));
    NextEnds(mib, oids[..n]);
    RoundsEnds(mib, oids[n..], rounds);
    RoundsStart(mib, oids[n..], Clamp(maxRepetitions));
    AnswersSplit(NextAnswers(mib, oids[..n]), Concat(RoundOf(mib, oids[n..]), rounds));
  }

  lemma ExactBindings(table: seq<Binding>, answers: seq<Answer>)
    requires ValidBindings(table) && AllExact(table) && InTable(answers, |table|)
    requires ValidBindings(AnswerBindings(table, answers))
    ensures AllExact(AnswerBindings(table, answers)) <==> ExactAnswers(answers)
  {
    hide Exact;
    var bs := AnswerBindings(table, answers);
    forall i | 0 <= i < |bs|
      ensures bs[i] == AnswerBinding(table, answers[i])
      ensures answers[i].Stored? ==> Exact(bs[i].oid)
    {
      assert answers[i].Stored? ==> bs[i] == table[answers[i].index];
    }
  }

  lemma SettledAll(table: seq<Binding>, version: Int32, answers: seq<Answer>)
    requires |answers| <= MAX_NR_OIDS && InTable(answers, |table|)
    ensures Settled(table, version, answers).Send? ==>
              Settled(table, version, answers).bindings == AnswerBindings(table, answers)
  {
    hide AnswerBindings, FirstMissing, AllStored;
  }

  /** The answers that are sent for a request, before they become bindings. */
  function AnswersTo(mib: seq<Oid>, m: Message): seq<Answer> {
    if m.pdu == SNMP_GET then GetAnswers(mib, m.oids)
    else if m.pdu == SNMP_GETNEXT then NextAnswers(mib, m.oids)
    else BulkAnswers(mib, m.nonRepeaters, m.maxRepetitions, m.oids)
  }

  lemma SendsAnswers(table: seq<Binding>, cfg: Config, m: Message)
    requires |m.oids| <= MAX_NR_OIDS && Decide(table, cfg, m).Send?
    ensures m.pdu in {SNMP_GET, SNMP_GETNEXT, SNMP_GETBULK}
    ensures var answers := AnswersTo(BindingOids(table), m);
            InTable(answers, |table|) && Decide(table, cfg, m).bindings == AnswerBindings(table, answers)
  {
    hide GetAnswers, NextAnswers, BulkAnswers, AnswerBindings, InTable, Settled;
    var mib := BindingOids(table);
    GetInTable(mib, m.oids);
    NextInTable(mib, m.oids);
    BulkInTable(mib, m.nonRepeaters, m.maxRepetitions, m.oids);
    SettledAll(table, m.version, GetAnswers(mib, m.oids));
    SettledAll(table, m.version, NextAnswers(mib, m.oids));
  }

  lemma AnswersExact(table: seq<Binding>, m: Message)
    requires AllDecoded(m.oids) && ValidBindings(table) && AllExact(table)
    requires m.pdu in {SNMP_GET, SNMP_GETNEXT, SNMP_GETBULK}
    ensures ExactAnswers(AnswersTo(BindingOids(table), m)) <==> ExactSentBack(table, m)
  {
    hide Exact, Find, FindNext, GetAnswer, BulkAnswers, NextAnswers, Singles, OidTlv;
    var mib := BindingOids(table);
    if m.pdu == SNMP_GET {
      GetBack(mib, m.oids);
    } else if m.pdu == SNMP_GETNEXT {
      NextEnds(mib, m.oids);
    } else {
      var n := Singles(m.nonRepeaters, m.oids);
      BulkEndsExactly(mib, m.nonRepeaters, m.maxRepetitions, m.oids);
      assert forall i :: 0 <= i < n ==> m.oids[..n][i] == m.oids[i];
      assert forall i :: n <= i < |m.oids| ==> m.oids[n..][i - n] == m.oids[i];
    }
  }

  lemma GetBack(mib: seq<Oid>, oids: seq<Oid>)
    ensures ExactAnswers(GetAnswers(mib, oids))
            <==> forall i :: 0 <= i < |oids| && GetAnswer(mib, oids[i]).Missing? ==> oids[i].Valid() && Exact(oids[i])
  {
    hide Exact, Find;
    var answers := GetAnswers(mib, oids);
    assert forall i :: 0 <= i < |oids| ==> answers[i] == GetAnswer(mib, oids[i]);
  }

  /** A reply that carries values is, octet for octet, the message it stands for exactly when all
      names that are sent back under an exception came in the size the agent gives them. */
  lemma SentExactly(table: seq<Binding>, cfg: Config, m: Message, before: seq<Byte>)
    requires Accepted(m) && ValidBindings(table) && AllFit(table) && AllExact(table)
    requires |before| == MAX_PACKET_SIZE && Decide(table, cfg, m).Send?
    ensures var bs, r := Decide(table, cfg, m).bindings, ResponseTo(m, STATUS_OK, 0);
            && ValidBindings(bs)
            && match Outgoing(table, cfg, m, before)
               case Reply(bytes) => bytes == Serialize(MessageTree(r, bs)) <==> ExactSentBack(table, m)
               case Failure => ReplySize(r, bs) > MAX_PACKET_SIZE
               case _ => false
  {
    hide OidTlv, Decide, AnswersTo, AnswerBindings, InTable, ExactAnswers, ExactSentBack, AllExact, AllFit, Filled,
         Serialize, MessageTree, EnvelopeSize, SentBack;
    DecisionFits(table, cfg, m);
    SendsAnswers(table, cfg, m);
    AcceptedDecoded(m);
    AnswersExact(table, m);
    var bs := Decide(table, cfg, m).bindings;
    ExactBindings(table, AnswersTo(BindingOids(table), m));
    if ReplySize(ResponseTo(m, STATUS_OK, 0), bs) <= MAX_PACKET_SIZE {
      EnvelopeIsLarger(ResponseTo(m, STATUS_OK, 0), BindingsSize(bs));
      SentAsMeant(ResponseTo(m, STATUS_OK, 0), bs, before);
    }
  }

  lemma RefusedNames(m: Message)
    requires Accepted(m)
    ensures var bs := NullBindings(m.oids, NULL_BYTES);
            ValidBindings(bs) && AllFit(bs) && (AllExact(bs) <==> forall i :: 0 <= i < |m.oids| ==> Exact(m.oids[i]))
  {
    hide OidTlv;
    var bs := NullBindings(m.oids, NULL_BYTES);
    assert forall i :: 0 <= i < |bs| ==> bs[i].oid == m.oids[i];
  }

  /** An error reply within the buffer is the message it stands for exactly when all names came in
      exact size, and then decodes to the request's names, with the error status and index in
      the slots of the counts. */
  lemma RefusalRoundTrip(m: Message, status: Int32, index: Int32, before: seq<Byte>, behind: seq<Byte>)
    requires Accepted(m) && |before| == MAX_PACKET_SIZE
    ensures ValidBindings(NullBindings(m.oids, NULL_BYTES)) && AllFit(NullBindings(m.oids, NULL_BYTES))
    ensures var r, bs := ResponseTo(m, status, index), NullBindings(m.oids, NULL_BYTES);
            match Transmit(r, bs, before)
            case Reply(bytes) =>
              && (bytes == Serialize(MessageTree(r, bs)) <==> forall i :: 0 <= i < |m.oids| ==> Exact(m.oids[i]))
              && (bytes == Serialize(MessageTree(r, bs)) ==> ParseRequest(bytes, behind) == Parsed(r))
            case Failure => ReplySize(r, bs) > MAX_PACKET_SIZE
            case _ => false
  {
    hide ParseRequest, MessageTree, Serialize, EnvelopeSize, Exact, Readable, OidTlv, AllExact, AllFit, Filled;
    var r, bs := ResponseTo(m, status, index), NullBindings(m.oids, NULL_BYTES);
    RefusedNames(m);
    if ReplySize(r, bs) <= MAX_PACKET_SIZE {
      EnvelopeIsLarger(r, BindingsSize(bs));
      SentAsMeant(r, bs, before);
      if AllExact(bs) {
        RefusedAreFaithful(m);
        MessageRoundTrip(r, bs, behind);
        assert OidsOf(bs) == m.oids;
      }
    }
  }

  lemma RefusedAreFaithful(m: Message)
    requires Accepted(m) && forall i :: 0 <= i < |m.oids| ==> Exact(m.oids[i])
    ensures AllFaithful(NullBindings(m.oids, NULL_BYTES))
  {
    hide OidTlv, Readable, Exact, Canonical;
    NullIsReadable();
  }

  /** A request whose names all came in exact size is answered with the message that stands for
      the decision, or not at all. */
  lemma ExactNamesAreSentWhole(table: seq<Binding>, cfg: Config, m: Message, before: seq<Byte>)
    requires Accepted(m) && ValidBindings(table) && AllFit(table) && AllExact(table)
    requires |before| == MAX_PACKET_SIZE && forall i :: 0 <= i < |m.oids| ==> Exact(m.oids[i])
    ensures match Outgoing(table, cfg, m, before)
            case Reply(bytes) =>
              var v := Decide(table, cfg, m);
              && (v.Send? || v.Refuse?) && ValidBindings(Sent(m, v))
              && bytes == Serialize(MessageTree(if v.Send? then ResponseTo(m, STATUS_OK, 0)
                                                else ResponseTo(m, v.status, v.index), Sent(m, v)))
            case _ => true
  {
    hide OidTlv, Decide, Exact, Serialize, MessageTree, ReplySize, SentBack, Transmit;
    var v := Decide(table, cfg, m);
    if v.Send? {
      SentExactly(table, cfg, m, before);
    } else if v.Refuse? {
      RefusalRoundTrip(m, v.status, v.index, before, []);
    }
  }

  // ----- a name with superfluous octets -----

  /** The name 1.3.6 with two leading zero groups, as the decoder takes it from 43, 128, 128, 6. */
  const STRETCHED := Oid([1, 3, 6], 6)

  function StretchedRequest(id: Int32): Message {
    Message(SNMP_VERSION_1, [0x70], SNMP_GET, id, 0, 0, [STRETCHED])
  }

  /** Where authentication is required, the request is refused in a packet in which the two octets
      that were at this place of the buffer before precede the NULL. It never is the message it
      stands for; but if those octets happen to start a value of two octets, it decodes like an
      error reply with that name. */
  lemma GapInRefusal(cfg: Config, id: Int32, before: seq<Byte>, behind: seq<Byte>)
    requires cfg.auth && |before| == MAX_PACKET_SIZE
    ensures var c: seq<Byte> := [0x2B, 0x80, 0x80, 0x06];
            OidOf(c) == Some(STRETCHED.subids) && DecodedLength(|c|) == STRETCHED.encodedLength
    ensures var m := StretchedRequest(id);
            var r := ResponseTo(m, STATUS_GEN_ERR, 0);
            var b := Binding(STRETCHED, before[2044..2046] + NULL_BYTES);
            && Accepted(m)
            && Outgoing([], cfg, m, before) == Reply(Serialize(MessageTree(r, [b])))
            && Serialize(MessageTree(r, [b])) != Serialize(MessageTree(r, [Binding(STRETCHED, NULL_BYTES)]))
            && (before[2044..2046] == [0x04, 0x02] ==>
                  ParseRequest(Serialize(MessageTree(r, [b])), behind) == Parsed(r.(oids := [Oid([1, 3, 6], 4)])))
  {
    hide Serialize, EnvelopeSize, Readable, ParseRequest, Transmit, OidTlv, OidOf;
    var m := StretchedRequest(id);
    var r := ResponseTo(m, STATUS_GEN_ERR, 0);
    var value := before[2044..2046] + NULL_BYTES;
    var meant, b := Binding(STRETCHED, NULL_BYTES), Binding(STRETCHED, value);
    StretchedSix();
    SixIsFour();
    assert NullBindings(m.oids, NULL_BYTES) == [meant];
    assert Decide([], cfg, m) == Refuse(STATUS_GEN_ERR, 0);
    StretchedSent(r, before);
    if before[2044..2046] == [0x04, 0x02] {
      assert value == [0x04, 0x02, 0x05, 0x00];
      OctetsAreReadable();
      TidyName(r, value, behind);
    }
  }

  lemma StretchedSent(r: Message, before: seq<Byte>)
    requires CommunityName(r.community) && |before| == MAX_PACKET_SIZE
    ensures var meant := Binding(STRETCHED, NULL_BYTES);
            var b := Binding(STRETCHED, before[2044..2046] + NULL_BYTES);
            && |OidTlv(STRETCHED.subids)| <= STRETCHED.encodedLength
            && AllFit([meant])
            && Transmit(r, [meant], before) == Reply(Serialize(MessageTree(r, [b])))
            && Serialize(MessageTree(r, [b])) != Serialize(MessageTree(r, [meant]))
  {
    hide Serialize, EnvelopeSize, OidTlv, MessageTree;
    var meant := Binding(STRETCHED, NULL_BYTES);
    SixIsFour();
    SmallRefusal(r, STRETCHED);
    EnvelopeIsLarger(r, BindingsSize([meant]));
    assert [meant][1..] == [];
    assert !Exact(STRETCHED) && !AllExact([meant]);
    SentAsMeant(r, [meant], before);
    assert Filled([], before) == [];
    assert Gap(STRETCHED, before, 2046) == before[2044..2046];
    assert Filled([meant], before) == [FilledBinding(meant, before, 2048)];
  }

  lemma SixIsFour()
    ensures |OidTlv([1, 3, 6])| == 4 && Canonical([1, 3, 6])
  {
    assert [1, 3, 6][2..] == [6] && [6][1..] == [];
    assert SubidsContent([6]) == [6] by { assert SubidsContent([]) == []; assert Base128(6) == [6]; }
    assert OidContent([1, 3, 6]) == [43, 6];
    HeaderForms(OID, 2);
  }

  lemma OctetsAreReadable()
    ensures Readable([0x04, 0x02, 0x05, 0x00])
  {
    TlvIsReadable(OCTET_STRING, [0x05, 0x00]);
    HeaderForms(OCTET_STRING, 2);
    assert Tlv(OCTET_STRING, [0x05, 0x00]) == [0x04, 0x02, 0x05, 0x00];
  }

  /** The recorded size of a name does not show on the wire. */
  lemma TidyName(r: Message, value: seq<Byte>, behind: seq<Byte>)
    requires Sendable(r) && Readable(value) && |value| <= 1800
    ensures ParseRequest(Serialize(MessageTree(r, [Binding(STRETCHED, value)])), behind)
            == Parsed(r.(oids := [Oid([1, 3, 6], 4)]))
  {
    hide Readable, ParseRequest, Serialize, ReplySize, OidTlv;
    SixIsFour();
    var tidy := Binding(Oid([1, 3, 6], 4), value);
    assert BindingTrees([Binding(STRETCHED, value)]) == BindingTrees([tidy]);
    OneBindingFits(r, tidy);
    MessageRoundTrip(r, [tidy], behind);
    assert OidsOf([tidy]) == [tidy.oid];
  }

  lemma StretchedSix()
    ensures var c: seq<Byte> := [0x2B, 0x80, 0x80, 0x06];
            OidOf(c) == Some([1, 3, 6]) && |c| == 4
  {
    var c: seq<Byte> := [0x2B, 0x80, 0x80, 0x06];
    var rest: seq<Byte> := [0x80, 0x80, 0x06];
    assert c[1..] == rest;
    GroupEnds(rest, 2);
    assert rest[..3] == rest && rest[3..] == [];
    ZeroGroups();
    assert SubidsOf([], 3) == Some([]);
    assert SubidsOf(rest, 2) == Some([6] + []);
    assert [6] + [] == [6];
    assert c[0] / 40 == 1 && c[0] % 40 == 3;
    assert [1, 3] + [6] == [1, 3, 6];
  }

  lemma ZeroGroups()
    ensures GroupValue([0x80, 0x80, 0x06]) == 6
  {
    var g: seq<Byte> := [0x80, 0x80, 0x06];
    GroupOfOne([0x80]);
    assert g[..2] == [0x80, 0x80] && [0x80, 0x80][..1] == [0x80];
    assert GroupValue([0x80, 0x80]) == 0;
  }

  lemma SmallRefusal(m: Message, o: Oid)
    requires CommunityName(m.community) && o.Valid() && 0 <= o.encodedLength <= 80
    ensures ReplySize(m, [Binding(o, NULL_BYTES)]) <= MAX_PACKET_SIZE
  {
    hide Header, IntegerTlv, StringTlv, CommunityName;
    var b := Binding(o, NULL_BYTES);
    assert BindingsSize([b]) == BindingSize(b) by { assert [b][1..] == []; }
    CommunityIsShort(m.community);
    IntegerRoom(m.version);
    IntegerRoom(m.id);
    IntegerRoom(m.nonRepeaters);
    IntegerRoom(m.maxRepetitions);
    SmallSequence(o.encodedLength + 2);
    SmallSequence(BindingSize(b));
    var n := |IntegerTlv(m.id)| + |IntegerTlv(m.nonRepeaters)| + |IntegerTlv(m.maxRepetitions)|
             + SequenceSize(BindingSize(b));
    SmallSequence(n);
    SmallSequence(|IntegerTlv(m.version)| + |StringTlv(m.community)| + SequenceSize(n));
  }
}
