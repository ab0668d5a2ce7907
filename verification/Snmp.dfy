/** The agent: from the octets of a request to the octets of the response. */
module Snmp {
  import opened Types
  import opened Ber
  import opened OidCodec
  import opened Answers
  import opened AnswerLaws
  import opened Messages
  import opened RoundTrip
  import opened Decoder
  import opened Encoder
  import opened Mib
  import opened Handlers

  /** The community that version 2c requests must name, and whether authentication is
      required, which version 1 requests cannot offer. */
  datatype Config = Config(community: seq<Byte>, auth: bool)

  /** What becomes of a packet. Undefined: the decoder has read beyond the buffer. */
  datatype Outcome = Reply(bytes: seq<Byte>) | Silence | Failure | Undefined

  /** What a request asks to be sent: bindings, or an error status with its index. */
  datatype Verdict =
    | Send(bindings: seq<Binding>)
    | Refuse(status: Int32, index: Int32)
    | Ignore
    | Overflow

  function BindingOids(table: seq<Binding>): seq<Oid> {
    seq(|table|, i requires 0 <= i < |table| => table[i].oid)
  }

  function Decide(table: seq<Binding>, cfg: Config, m: Message): Verdict
    requires |m.oids| <= MAX_NR_OIDS
  {
    var mib := BindingOids(table);
    if m.version == SNMP_VERSION_2C && m.community != cfg.community then Refuse(STATUS_NO_ACCESS, 0)
    else if m.version != SNMP_VERSION_2C && cfg.auth then Refuse(STATUS_GEN_ERR, 0)
    else if m.pdu == SNMP_GET then
      GetInTable(mib, m.oids);
      Settled(table, m.version, GetAnswers(mib, m.oids))
    else if m.pdu == SNMP_GETNEXT then
      NextInTable(mib, m.oids);
      Settled(table, m.version, NextAnswers(mib, m.oids))
    else if m.pdu == SNMP_SET then
      Refuse(if m.version == SNMP_VERSION_1 then STATUS_NO_SUCH_NAME else STATUS_NO_ACCESS, 0)
    else if m.pdu == SNMP_GETBULK then
      var answers := BulkAnswers(mib, m.nonRepeaters, m.maxRepetitions, m.oids);
      BulkInTable(mib, m.nonRepeaters, m.maxRepetitions, m.oids);
      if |answers| > MAX_NR_VALUES then Overflow else Send(AnswerBindings(table, answers))
    else Ignore
  }

  function Settled(table: seq<Binding>, version: Int32, answers: seq<Answer>): (v: Verdict)
    requires |answers| <= MAX_NR_OIDS && InTable(answers, |table|)
    ensures v.Send? || v.Refuse?
  {
    match Settle(version, answers)
    case Answers(list) => Send(AnswerBindings(table, list))
    case Error(status, index) => Refuse(status, index)
  }

  function ResponseTo(m: Message, status: Int32, index: Int32): Message {
    m.(pdu := SNMP_RESPONSE, nonRepeaters := status, maxRepetitions := index)
  }

  const NULL_BYTES: seq<Byte> := [0x05, 0x00]

  /** The octets of a response, made in a buffer that held `before`: the serialized tree, in
      which a name that came in more octets than it is given leaves a gap of old ones. */
  function Transmit(m: Message, bs: seq<Binding>, before: seq<Byte>): (r: Outcome)
    requires ValidBindings(bs) && AllFit(bs) && |before| == MAX_PACKET_SIZE
    ensures r.Reply? || r.Failure?
  {
    if ReplySize(m, bs) > MAX_PACKET_SIZE then Failure
    else
      EnvelopeIsLarger(m, BindingsSize(bs));
      Reply(Serialize(MessageTree(m, Filled(bs, before))))
  }

  /** What goes out for a decoded request. */
  function Outgoing(table: seq<Binding>, cfg: Config, m: Message, before: seq<Byte>): (r: Outcome)
    requires Accepted(m) && ValidBindings(table) && AllFit(table) && |before| == MAX_PACKET_SIZE
    ensures !r.Undefined?
  {
    match Decide(table, cfg, m)
    case Ignore => Silence
    case Overflow => Failure
    case Refuse(status, index) =>
      DecisionFits(table, cfg, m);
      Transmit(ResponseTo(m, status, index), NullBindings(m.oids, NULL_BYTES), before)
    case Send(bs) =>
      DecisionFits(table, cfg, m);
      Transmit(ResponseTo(m, STATUS_OK, 0), bs, before)
  }

  /** The whole agent as a function of its table, its configuration, the packet and what lies
      behind that in its buffer. */
  function Respond(table: seq<Binding>, cfg: Config, p: seq<Byte>, behind: seq<Byte>): Outcome
    requires |p| + |behind| == MAX_PACKET_SIZE && ValidBindings(table) && AllFit(table)
  {
    match ParseRequest(p, behind)
    case Malformed => Failure
    case Overrun => Undefined
    case Parsed(m) => Outgoing(table, cfg, m, p + behind)
  }

  // ----- every name that is sent has room for itself -----

  predicate Fits(o: Oid) {
    o.Valid() && |OidTlv(o.subids)| <= o.encodedLength
  }

  predicate FitTable(mib: seq<Oid>) {
    forall i :: 0 <= i < |mib| ==> Fits(mib[i])
  }

  /** The names that are sent under an exception. */
  predicate FitAnswers(answers: seq<Answer>) {
    forall i :: 0 <= i < |answers| && answers[i].Missing? ==> Fits(answers[i].oid)
  }

  lemma GetAnswersFit(mib: seq<Oid>, oids: seq<Oid>)
    requires FitTable(oids)
    ensures FitAnswers(GetAnswers(mib, oids))
  {
    hide Fits, Find;
  }

  lemma NextAnswersFit(mib: seq<Oid>, oids: seq<Oid>)
    requires FitTable(oids)
    ensures FitAnswers(NextAnswers(mib, oids))
  {
    hide Fits, FindNext;
  }

  lemma {:induction false} IterateFits(mib: seq<Oid>, o: Oid, j: nat)
    requires FitTable(mib) && Fits(o)
    ensures Fits(Iterate(mib, o, j))
  {
    hide Fits, FindNext;
    if j > 0 {
      IterateFits(mib, o, j - 1);
    }
  }

  lemma RoundFits(mib: seq<Oid>, repeaters: seq<Oid>, j: nat)
    requires FitTable(mib) && FitTable(repeaters)
    ensures FitAnswers(Round(mib, repeaters, j))
  {
    hide Fits, FindNext, Iterate;
    forall k | 0 <= k < |repeaters|
      ensures Fits(Iterate(mib, repeaters[k], j))
    {
      IterateFits(mib, repeaters[k], j);
    }
  }

  lemma {:induction false} RoundsFit(mib: seq<Oid>, repeaters: seq<Oid>, n: nat)
    requires FitTable(mib) && FitTable(repeaters)
    ensures FitAnswers(Concat(RoundOf(mib, repeaters), n))
  {
    hide Fits, Round;
    if n > 0 {
      RoundsFit(mib, repeaters, n - 1);
      RoundFits(mib, repeaters, n - 1);
    }
  }

  lemma BulkFits(mib: seq<Oid>, nonRepeaters: Int32, maxRepetitions: Int32, oids: seq<Oid>)
    requires FitTable(mib) && FitTable(oids)
    ensures FitAnswers(BulkAnswers(mib, nonRepeaters, maxRepetitions, oids))
  {
    hide Fits, NextAnswers, Concat, RoundOf, RoundCount;
    var n := Singles(nonRepeaters, oids);
    NextAnswersFit(mib, oids[..n]);
    RoundsFit(mib, oids[n..], RoundCount(mib, oids[n..], Clamp(maxRepetitions)));
  }

  lemma AnswerBindingsFit(table: seq<Binding>, answers: seq<Answer>)
    requires ValidBindings(table) && AllFit(table) && InTable(answers, |table|) && FitAnswers(answers)
    ensures ValidBindings(AnswerBindings(table, answers)) && AllFit(AnswerBindings(table, answers))
  {
    hide OidTlv;
  }

  lemma AppendedFits(version: Int32, answers: seq<Answer>)
    requires |answers| <= MAX_NR_OIDS && FitAnswers(answers)
    ensures FitAnswers(Appended(version, answers))
  {
    hide Fits;
  }

  lemma DecisionFits(table: seq<Binding>, cfg: Config, m: Message)
    requires ValidBindings(table) && AllFit(table) && Accepted(m)
    ensures var v := Decide(table, cfg, m);
            v.Send? ==> ValidBindings(v.bindings) && AllFit(v.bindings)
    ensures ValidBindings(NullBindings(m.oids, NULL_BYTES)) && AllFit(NullBindings(m.oids, NULL_BYTES))
  {
    hide OidTlv, GetAnswers, NextAnswers, BulkAnswers, AnswerBindings, FitAnswers, InTable, Settle;
    var mib := BindingOids(table);
    assert FitTable(mib) && FitTable(m.oids);
    GetAnswersFit(mib, m.oids);
    NextAnswersFit(mib, m.oids);
    BulkFits(mib, m.nonRepeaters, m.maxRepetitions, m.oids);
    GetInTable(mib, m.oids);
    NextInTable(mib, m.oids);
    BulkInTable(mib, m.nonRepeaters, m.maxRepetitions, m.oids);
    SettledFits(table, m.version, GetAnswers(mib, m.oids));
    SettledFits(table, m.version, NextAnswers(mib, m.oids));
    var answers := BulkAnswers(mib, m.nonRepeaters, m.maxRepetitions, m.oids);
    AnswerBindingsFit(table, answers);
  }

  lemma AcceptedFit(m: Message)
    requires Accepted(m)
    ensures FitTable(m.oids)
  {
  }

  lemma SettledFits(table: seq<Binding>, version: Int32, answers: seq<Answer>)
    requires ValidBindings(table) && AllFit(table)
    requires |answers| <= MAX_NR_OIDS && InTable(answers, |table|) && FitAnswers(answers)
    ensures var v := Settled(table, version, answers);
            v.Send? ==> ValidBindings(v.bindings) && AllFit(v.bindings)
  {
    hide OidTlv, AnswerBindings, FitAnswers, InTable;
    AnswerBindingsFit(table, answers);
  }

  // ----- snmp() -----

  datatype Status = Success | Failed | Stopped

  /** The values a handler has appended are, on the wire, its answers. */
  lemma ValuesOnWire(mib: Mib, st: Statics, answers: seq<Answer>)
    requires mib.Valid() && st.Valid() && InTable(answers, |mib.entries|) && FitAnswers(answers)
    ensures var vs := Values(mib.entries, st, answers);
            && ValidValues(vs)
            && Encoder.Buffers(vs) <= Encoder.Buffers(mib.entries) + st.Buffers()
            && Bindings(vs) == AnswerBindings(mib.View(), answers)
  {
    hide OidTlv;
    var vs := Values(mib.entries, st, answers);
    forall i | 0 <= i < |vs|
      ensures ValidValue(vs[i]) && vs[i].data.buffer in Encoder.Buffers(mib.entries) + st.Buffers()
      ensures BindingOf(vs[i]) == AnswerBinding(mib.View(), answers[i])
    {
      match answers[i]
      case Stored(k) => assert ValidEntry(mib.entries[k]);
      case Missing(_, _) =>
    }
  }

  lemma TableOids(mib: Mib)
    requires mib.Valid()
    ensures BindingOids(mib.View()) == Oids(mib.entries)
    ensures AllFit(mib.View()) && AllExact(mib.View())
  {
    hide OidTlv;
    forall i | 0 <= i < |mib.entries|
      ensures Exact(mib.View()[i].oid)
    {
      assert ValidEntry(mib.entries[i]);
    }
  }

  /** What ValuesOnWire gives for a handler that settles its answers. */
  lemma SettledOnWire(mib: Mib, st: Statics, version: Int32, answers: seq<Answer>)
    requires mib.Valid() && st.Valid() && |answers| <= MAX_NR_OIDS
    requires InTable(answers, |mib.entries|) && FitAnswers(answers)
    ensures var sent := Appended(version, answers);
            && InTable(sent, |mib.entries|) && |sent| <= MAX_NR_OIDS
            && ValidValues(Values(mib.entries, st, sent))
            && Encoder.Buffers(Values(mib.entries, st, sent)) <= Encoder.Buffers(mib.entries) + st.Buffers()
            && AllFit(Bindings(Values(mib.entries, st, sent)))
            && match Settled(mib.View(), version, answers)
               case Send(bs) => Settle(version, answers).Answers? && Bindings(Values(mib.entries, st, sent)) == bs
               case Refuse(status, index) =>
                 status != STATUS_OK && Settle(version, answers) == Answers.Error(status, index)
               case _ => false
  {
    hide OidTlv, Values, AnswerBindings;
    AppendedInTable(version, answers, |mib.entries|);
    AppendedFits(version, answers);
    ValuesOnWire(mib, st, Appended(version, answers));
    TableOids(mib);
    AnswerBindingsFit(mib.View(), Appended(version, answers));
  }

  ghost predicate Initial(response: Response)
    reads response
  {
    response.errorStatus == STATUS_OK && response.errorIndex == 0 && response.valueList == []
  }

  /** `response` holds what `v` says is to be sent, in values the encoder can take. */
  ghost predicate Prepared(response: Response, mib: Mib, st: Statics, v: Verdict)
    requires ValidValues(response.valueList)
    reads response, Encoder.Buffers(response.valueList), mib
  {
    && Encoder.Buffers(response.valueList) <= Encoder.Buffers(mib.entries) + st.Buffers()
    && AllFit(Bindings(response.valueList))
    && match v
       case Send(bs) => response.errorStatus == STATUS_OK && response.errorIndex == 0
                        && Bindings(response.valueList) == bs
       case Refuse(status, index) => status != STATUS_OK && response.errorStatus == status
                                     && response.errorIndex == index
       case _ => false
  }

  lemma AppendedIsShort(version: Int32, answers: seq<Answer>)
    requires |answers| <= MAX_NR_OIDS
    ensures |Appended(version, answers)| <= MAX_NR_OIDS
  {
  }

  lemma SettledPrepared(mib: Mib, st: Statics, response: Response, version: Int32, answers: seq<Answer>)
    requires mib.Valid() && st.Valid() && |answers| <= MAX_NR_OIDS
    requires InTable(answers, |mib.entries|) && FitAnswers(answers)
    requires InTable(Appended(version, answers), |mib.entries|)
    requires response.valueList == Values(mib.entries, st, Appended(version, answers))
    requires match Settle(version, answers)
             case Answers(_) => response.errorStatus == STATUS_OK && response.errorIndex == 0
             case Error(status, index) => response.errorStatus == status && response.errorIndex == index
    ensures ValidValues(response.valueList)
            && Prepared(response, mib, st, Settled(mib.View(), version, answers))
  {
    hide OidTlv, Settle, Appended, Values, Settled, InTable, FitAnswers, ValidEntry, BindingOf;
    SettledOnWire(mib, st, version, answers);
  }

  lemma NoneBefore(vs: seq<Value>)
    ensures [] + vs == vs
  {
  }

  method ServeGet(mib: Mib, st: Statics, request: Request, response: Response) returns (ok: bool)
    requires mib.Valid() && st.Valid() && Accepted(request.View()) && Initial(response)
    modifies response
    ensures var answers := GetAnswers(Oids(mib.entries), request.oidList);
            && InTable(answers, |mib.entries|)
            && ok && ValidValues(response.valueList)
            && Prepared(response, mib, st, Settled(mib.View(), request.version, answers))
  {
    hide OidTlv, GetAnswers, Settle, Appended, Values, Settled, InTable, FitAnswers, Decoded, BindingOf, Prepared,
         ValidValues;
    ghost var mibOids := Oids(mib.entries);
    ghost var answers := GetAnswers(mibOids, request.oidList);
    AcceptedFit(request.View());
    GetAnswersFit(mibOids, request.oidList);
    GetInTable(mibOids, request.oidList);
    AppendedIsShort(request.version, answers);
    ok := HandleGet(mib, st, request, response);
    NoneBefore(Values(mib.entries, st, Appended(request.version, answers)));
    SettledPrepared(mib, st, response, request.version, answers);
  }

  method ServeGetNext(mib: Mib, st: Statics, request: Request, response: Response) returns (ok: bool)
    requires mib.Valid() && st.Valid() && Accepted(request.View()) && Initial(response)
    modifies response
    ensures var answers := NextAnswers(Oids(mib.entries), request.oidList);
            && InTable(answers, |mib.entries|)
            && ok && ValidValues(response.valueList)
            && Prepared(response, mib, st, Settled(mib.View(), request.version, answers))
  {
    hide OidTlv, NextAnswers, Settle, Appended, Values, Settled, InTable, FitAnswers, Decoded, BindingOf, Prepared,
         ValidValues;
    ghost var mibOids := Oids(mib.entries);
    ghost var answers := NextAnswers(mibOids, request.oidList);
    AcceptedFit(request.View());
    NextAnswersFit(mibOids, request.oidList);
    NextInTable(mibOids, request.oidList);
    AppendedIsShort(request.version, answers);
    ok := HandleGetNext(mib, st, request, response);
    NoneBefore(Values(mib.entries, st, Appended(request.version, answers)));
    SettledPrepared(mib, st, response, request.version, answers);
  }

  method ServeGetBulk(mib: Mib, st: Statics, request: Request, response: Response) returns (ok: bool)
    requires mib.Valid() && st.Valid() && Accepted(request.View()) && Initial(response)
    modifies request`nonRepeaters, request`maxRepetitions, response
    ensures request.View() == old(request.View()).(nonRepeaters := request.nonRepeaters,
                                                   maxRepetitions := request.maxRepetitions)
    ensures var answers := BulkAnswers(Oids(mib.entries), old(request.nonRepeaters),
                                       old(request.maxRepetitions), request.oidList);
            && InTable(answers, |mib.entries|)
            && (ok <==> |answers| <= MAX_NR_VALUES)
            && (ok ==> ValidValues(response.valueList)
                       && Prepared(response, mib, st, Send(AnswerBindings(mib.View(), answers))))
  {
    hide OidTlv, BulkAnswers, Values, AnswerBindings, InTable, FitAnswers, ValidEntry, Decoded, BindingOf;
    ghost var answers := BulkAnswers(Oids(mib.entries), request.nonRepeaters, request.maxRepetitions, request.oidList);
    BulkInTable(Oids(mib.entries), request.nonRepeaters, request.maxRepetitions, request.oidList);
    AcceptedFit(request.View());
    ok := HandleGetBulk(mib, st, request, response);
    assert [] + Values(mib.entries, st, answers) == Values(mib.entries, st, answers);
    if ok {
      BulkPrepared(mib, st, response, answers, old(request.nonRepeaters), old(request.maxRepetitions), request.oidList);
    }
  }

  lemma BulkPrepared(mib: Mib, st: Statics, response: Response, answers: seq<Answer>,
                     nonRepeaters: Int32, maxRepetitions: Int32, oids: seq<Oid>)
    requires mib.Valid() && st.Valid() && FitTable(oids)
    requires answers == BulkAnswers(Oids(mib.entries), nonRepeaters, maxRepetitions, oids)
    requires InTable(answers, |mib.entries|)
    requires response.errorStatus == STATUS_OK && response.errorIndex == 0
    requires response.valueList == Values(mib.entries, st, answers)
    ensures ValidValues(response.valueList)
            && Prepared(response, mib, st, Send(AnswerBindings(mib.View(), answers)))
  {
    hide OidTlv, BulkAnswers, Values, AnswerBindings, InTable, FitAnswers, ValidEntry;
    TableOids(mib);
    FitTableOids(mib);
    BulkFits(Oids(mib.entries), nonRepeaters, maxRepetitions, oids);
    ValuesOnWire(mib, st, answers);
    AnswerBindingsFit(mib.View(), answers);
  }

  lemma FitTableOids(mib: Mib)
    requires mib.Valid()
    ensures FitTable(Oids(mib.entries))
  {
    hide OidTlv;
    forall i | 0 <= i < |mib.entries|
      ensures Fits(mib.entries[i].oid)
    {
      assert ValidEntry(mib.entries[i]);
    }
  }

  /** The dispatch of a decoded request, up to the point where its response is encoded. */
  method Handle(mib: Mib, st: Statics, cfg: Config, request: Request, response: Response)
    returns (ok: bool, silent: bool)
    requires mib.Valid() && st.Valid() && Accepted(request.View()) && Initial(response)
    modifies request`nonRepeaters, request`maxRepetitions, response
    ensures request.View() == old(request.View()).(nonRepeaters := request.nonRepeaters,
                                                   maxRepetitions := request.maxRepetitions)
    ensures var v := Decide(mib.View(), cfg, old(request.View()));
            && (ok <==> !v.Overflow?)
            && (ok ==> (silent <==> v.Ignore?))
            && (ok && !silent ==> ValidValues(response.valueList) && Prepared(response, mib, st, v))
  {
    hide OidTlv, BulkAnswers, GetAnswers, NextAnswers, AnswerBindings, InTable, ValidEntry, Decoded, Settled;
    ok, silent := true, false;
    TableOids(mib);
    ghost var v, m, table := Decide(mib.View(), cfg, request.View()), request.View(), mib.View();
    if request.version == SNMP_VERSION_2C {
      if cfg.community != request.community {
        response.errorStatus, response.errorIndex := STATUS_NO_ACCESS, 0;
        return;
      }
    } else if cfg.auth {
      response.errorStatus, response.errorIndex := STATUS_GEN_ERR, 0;
      return;
    }
    if request.pdu == SNMP_GET {
      ok := ServeGet(mib, st, request, response);
    } else if request.pdu == SNMP_GETNEXT {
      ok := ServeGetNext(mib, st, request, response);
    } else if request.pdu == SNMP_SET {
      HandleSet(request, response);
    } else if request.pdu == SNMP_GETBULK {
      ok := ServeGetBulk(mib, st, request, response);
      assert mib.View() == table;
      assert ok <==> !v.Overflow?;
    } else {
      silent := true;
    }
  }

  /** The last part of Serve: encoding what the handlers prepared. */
  method SendResponse(mib: Mib, st: Statics, request: Request, response: Response, client: Client,
                      ghost m: Message, ghost v: Verdict)
    returns (status: Status)
    requires mib.Valid() && st.Valid() && client.Valid()
    requires client.packet !in Encoder.Buffers(mib.entries) + st.Buffers()
    requires AllDecoded(m.oids) && |m.oids| <= MAX_NR_OIDS
    requires request.View() == m.(nonRepeaters := request.nonRepeaters, maxRepetitions := request.maxRepetitions)
    requires ValidValues(response.valueList) && Prepared(response, mib, st, v)
    modifies response, client, client.packet
    ensures client.Valid()
    ensures var bs := if v.Send? then v.bindings else NullBindings(m.oids, NULL_BYTES);
            var r := if v.Send? then ResponseTo(m, STATUS_OK, 0) else ResponseTo(m, v.status, v.index);
            && ValidBindings(bs) && AllFit(bs)
            && match Transmit(r, bs, old(client.packet[..]))
               case Reply(bytes) => status == Success && client.Packet() == bytes
               case _ => status == Failed && client.size == old(client.size)
  {
    hide OidTlv, Serialize, MessageTree, ReplySize, AllExact, AllFit, AllDecoded, NullBindings, BindingOf, Filled,
         BindingsSize;
    assert st.nothing.buffer[..st.nothing.encodedLength] == NULL_BYTES;
    assert SentBindings(request, response, st.nothing)
        == if v.Send? then v.bindings else NullBindings(m.oids, NULL_BYTES);
    assert ReplyMessage(request, response) == ResponseTo(m, response.errorStatus, response.errorIndex);
    var ok := EncodeResponse(request, response, client, st.nothing);
    status := if ok then Success else Failed;
  }

  /** The middle part of Serve: from the decoded request to the response. */
  method ServeDecoded(mib: Mib, st: Statics, cfg: Config, request: Request, client: Client)
    returns (status: Status)
    requires mib.Valid() && st.Valid() && client.Valid() && Accepted(request.View())
    requires client.packet !in Encoder.Buffers(mib.entries) + st.Buffers()
    modifies request, client, client.packet
    ensures client.Valid() && mib.View() == old(mib.View())
    ensures AllFit(old(mib.View()))
    ensures match Outgoing(old(mib.View()), cfg, old(request.View()), old(client.packet[..]))
            case Reply(bytes) => status == Success && client.Packet() == bytes
            case Silence => status == Success && client.size == 0
            case _ => status == Failed && client.size == old(client.size)
  {
    hide OidTlv, Decide, Transmit, AllFit, Accepted, AllDecoded, ValidEntry, NullBindings, BindingOf,
         Prepared, ValidValues;
    ghost var m, table := request.View(), mib.View();
    TableOids(mib);
    AcceptedDecoded(m);
    ghost var v := Decide(table, cfg, m);
    DecisionFits(table, cfg, m);
    var response := new Response();
    var ok, silent := Handle(mib, st, cfg, request, response);
    if !ok {
      return Failed;
    }
    if silent {
      client.size := 0;
      return Success;
    }
    status := SendResponse(mib, st, request, response, client, m, v);
    assert mib.View() == table;
  }

  /** Serves one packet: what lies in the packet buffer of `client` afterwards is the outcome
      of Respond, and the table is as it was. */
  method Serve(mib: Mib, st: Statics, cfg: Config, client: Client) returns (status: Status)
    requires mib.Valid() && st.Valid() && client.Valid()
    requires client.packet !in Encoder.Buffers(mib.entries) + st.Buffers()
    modifies client, client.packet
    ensures client.Valid() && mib.Valid() && mib.View() == old(mib.View())
    ensures AllFit(old(mib.View()))
    ensures match Respond(old(mib.View()), cfg, old(client.Packet()), old(client.Behind()))
            case Reply(bytes) => status == Success && client.Packet() == bytes
            case Silence => status == Success && client.size == 0
            case Failure => status == Failed && client.size == old(client.size)
            case Undefined => status == Stopped
  {
    hide ParseRequest, Outgoing, AllFit, Accepted, ValidEntry, BindingOf;
    TableOids(mib);
    var request := new Request();
    assert client.Packet() + client.Behind() == client.packet[..];
    var decoded := DecodeRequest(request, client);
    if decoded.Malformed? {
      return Failed;
    } else if decoded.Overrun? {
      return Stopped;
    }
    status := ServeDecoded(mib, st, cfg, request, client);
  }

  lemma AcceptedDecoded(m: Message)
    requires Accepted(m)
    ensures |m.oids| <= MAX_NR_OIDS && AllDecoded(m.oids)
  {
  }
}
