/** What the agent answers, octet for octet: the types, statuses, exceptions and limits of the
    protocol are written out here, so that each law stands on its own. */
module WireLaws {
  import opened Types
  import opened Machine
  import opened Ber
  import opened OidCodec
  import opened OidOrder
  import opened Answers
  import opened AnswerLaws
  import opened Messages
  import opened RoundTrip
  import opened Encoder
  import opened Handlers
  import opened Snmp
  import opened AgentLaws
  import opened RequestLaws

  // ----- a response and what a manager reads in it -----

  /** A response (0xA2) with error status, error index and these bindings, made in a buffer that
      held `before`; nothing above 2048 octets. */
  function Sends(v: Int32, c: seq<Byte>, id: Int32, status: Int32, index: Int32, bs: seq<Binding>, before: seq<Byte>)
    : Outcome
    requires ValidBindings(bs) && AllFit(bs) && |before| == 2048
  {
    if BindingsSize(bs) > 2048 then Failure
    else
      var bytes := MessageOctets(v, c, 0xA2, id, status, index, BindingsBytes(Filled(bs, before)));
      if |bytes| > 2048 then Failure else Reply(bytes)
  }

  lemma TransmitLaw(m: Message, status: Int32, index: Int32, bs: seq<Binding>, before: seq<Byte>)
    requires ValidBindings(bs) && AllFit(bs) && |before| == 2048
    ensures Transmit(ResponseTo(m, status, index), bs, before)
            == Sends(m.version, m.community, m.id, status, index, bs, before)
  {
    hide MessageOctets, MessageTree, Serialize, Filled, AllFit, BindingsSize, BindingsBytes, EnvelopeSize;
    var r := ResponseTo(m, status, index);
    EnvelopeIsLarger(r, BindingsSize(bs));
    if BindingsSize(bs) <= 2048 {
      SentAsMeant(r, bs, before);
      OctetsOfTree(r, Filled(bs, before));
    }
  }

  /** Without inexact names, the old buffer does not show. */
  lemma SendsWhole(v: Int32, c: seq<Byte>, id: Int32, status: Int32, index: Int32, bs: seq<Binding>, before: seq<Byte>)
    requires ValidBindings(bs) && AllFit(bs) && AllExact(bs) && |before| == 2048
    ensures var bytes := MessageOctets(v, c, 0xA2, id, status, index, BindingsBytes(bs));
            Sends(v, c, id, status, index, bs, before) == if |bytes| > 2048 then Failure else Reply(bytes)
  {
    hide Header, IntegerTlv, Filled, AllFit, AllExact, BindingsSize, BindingsBytes;
    BindingsLength(bs);
    if BindingsSize(bs) <= 2048 {
      FilledExact(bs, before);
    }
  }

  /** A manager reads in such a response the version, community and id of the request, the type of
      a response, the status and the index in this order, and the names. */
  lemma ResponseIsRead(v: Int32, c: seq<Byte>, id: Int32, status: Int32, index: Int32, bs: seq<Binding>,
                       before: seq<Byte>, behind: seq<Byte>)
    requires AllFaithful(bs) && |bs| <= 16 && (v == 0 || v == 1) && 1 <= |c| <= 63 && 0 !in c && |before| == 2048
    ensures ValidBindings(bs) && AllFit(bs)
    ensures match Sends(v, c, id, status, index, bs, before)
            case Reply(bytes) =>
              ParseRequest(bytes, behind) == Parsed(Message(v, c, 0xA2, id, status, index, OidsOf(bs)))
            case Failure => |MessageOctets(v, c, 0xA2, id, status, index, BindingsBytes(bs))| > 2048
            case _ => false
  {
    hide MessageOctets, ParseRequest, Filled, BindingsSize, BindingsBytes, OidTlv, Readable, Canonical, Sends;
    FaithfulIsExact(bs);
    SendsWhole(v, c, id, status, index, bs, before);
    var bytes := MessageOctets(v, c, 0xA2, id, status, index, BindingsBytes(bs));
    if |bytes| <= 2048 {
      MessageLaw(v, c, 0xA2, id, status, index, bs, behind);
    }
  }

  lemma FaithfulIsExact(bs: seq<Binding>)
    requires AllFaithful(bs)
    ensures ValidBindings(bs) && AllFit(bs) && AllExact(bs)
  {
    hide OidTlv, Readable, Canonical;
    assert forall i :: 0 <= i < |bs| ==> Faithful(bs[i]);
  }

  // ----- from the decision to the response -----

  /** The names of a request, each with a NULL. */
  function Nulled(oids: seq<Oid>): (bs: seq<Binding>)
    ensures |bs| == |oids|
  {
    seq(|oids|, i requires 0 <= i < |oids| => Binding(oids[i], [0x05, 0x00]))
  }

  lemma NulledFits(m: Message)
    requires Accepted(m)
    ensures ValidBindings(Nulled(m.oids)) && AllFit(Nulled(m.oids))
    ensures Nulled(m.oids) == NullBindings(m.oids, NULL_BYTES)
  {
    hide OidTlv;
    assert Nulled(m.oids) == NullBindings(m.oids, NULL_BYTES);
  }

  /** What a decision comes to. */
  lemma DecisionLaw(table: seq<Binding>, cfg: Config, p: seq<Byte>, behind: seq<Byte>)
    requires |p| + |behind| == 2048 && ValidBindings(table) && AllFit(table) && ParseRequest(p, behind).Parsed?
    ensures var m := ParseRequest(p, behind).value;
            && Accepted(m) && ValidBindings(Nulled(m.oids)) && AllFit(Nulled(m.oids))
            && match Decide(table, cfg, m)
               case Send(bs) =>
                 && ValidBindings(bs) && AllFit(bs)
                 && Respond(table, cfg, p, behind) == Sends(m.version, m.community, m.id, 0, 0, bs, p + behind)
               case Refuse(status, index) =>
                 Respond(table, cfg, p, behind)
                 == Sends(m.version, m.community, m.id, status, index, Nulled(m.oids), p + behind)
               case Ignore => Respond(table, cfg, p, behind) == Silence
               case Overflow => Respond(table, cfg, p, behind) == Failure
  {
    hide ParseRequest, Decide, Transmit, Sends, AllFit, Decoded, Nulled, NullBindings;
    var m := ParseRequest(p, behind).value;
    NulledFits(m);
    DecisionFits(table, cfg, m);
    match Decide(table, cfg, m)
    case Send(bs) => TransmitLaw(m, 0, 0, bs, p + behind);
    case Refuse(status, index) => TransmitLaw(m, status, index, Nulled(m.oids), p + behind);
    case Ignore =>
    case Overflow =>
  }

  /** A message of another version than 0 or 1, with an empty community or one above 63 octets, of a
      type the agent does not know or with more than 16 names is dropped as a failure; every other
      one is decided on. */
  lemma MessagesThatFail(table: seq<Binding>, cfg: Config, v: Int32, c: seq<Byte>, t: Byte, id: Int32, a: Int32, b: Int32,
                         bs: seq<Binding>, behind: seq<Byte>)
    requires ValidBindings(table) && AllFit(table) && AllFaithful(bs) && 0 !in c
    requires |MessageOctets(v, c, t, id, a, b, BindingsBytes(bs))| + |behind| == 2048
    ensures var p := MessageOctets(v, c, t, id, a, b, BindingsBytes(bs));
            if (v == 0 || v == 1) && 1 <= |c| <= 63 && KnownType(t) && |bs| <= 16 then
              ParseRequest(p, behind) == Parsed(Message(v, c, t, id, a, b, OidsOf(bs)))
            else Respond(table, cfg, p, behind) == Failure
  {
    hide ParseRequest, MessageOctets, BindingsBytes, AllFaithful, AllFit, KnownType, OidsOf, Outgoing;
    MessageLaw(v, c, t, id, a, b, bs, behind);
  }

  // ----- access -----

  /** Version 2c requests have to name the community of the agent; version 1 requests are served
      only where no authentication is required. */
  predicate Admitted(cfg: Config, m: Message) {
    if m.version == 1 then m.community == cfg.community else !cfg.auth
  }

  /** Whatever a request that is not admitted asks for, it is refused, with noAccess for version 2c
      and genErr for version 1, in octets that do not depend on the table. A request that is
      admitted is served as if there were no access control. */
  lemma AccessLaw(table: seq<Binding>, cfg: Config, p: seq<Byte>, behind: seq<Byte>)
    requires |p| + |behind| == 2048 && ValidBindings(table) && AllFit(table) && ParseRequest(p, behind).Parsed?
    ensures var m := ParseRequest(p, behind).value;
            && ValidBindings(Nulled(m.oids)) && AllFit(Nulled(m.oids))
            && (m.version == 0 || m.version == 1)
            && (m.version == 1 && m.community != cfg.community ==>
                  Respond(table, cfg, p, behind) == Sends(1, m.community, m.id, 6, 0, Nulled(m.oids), p + behind))
            && (m.version == 0 && cfg.auth ==>
                  Respond(table, cfg, p, behind) == Sends(0, m.community, m.id, 5, 0, Nulled(m.oids), p + behind))
            && (Admitted(cfg, m) ==>
                  Respond(table, cfg, p, behind) == Respond(table, Config(m.community, false), p, behind))
  {
    hide ParseRequest, Sends, AllFit, Decoded, Nulled, GetAnswers, NextAnswers, BulkAnswers, Settled, AnswerBindings,
         Respond, InTable;
    DecisionLaw(table, cfg, p, behind);
    DecisionLaw(table, Config(ParseRequest(p, behind).value.community, false), p, behind);
  }

  /** A SET (0xA3) that is admitted is refused without a look at the table, by noSuchName in
      version 1 and by noAccess in version 2c; what is not a GET, GETNEXT, SET or GETBULK (0xA0, 0xA1,
      0xA3, 0xA5) is not answered. */
  lemma OtherRequests(table: seq<Binding>, cfg: Config, p: seq<Byte>, behind: seq<Byte>)
    requires |p| + |behind| == 2048 && ValidBindings(table) && AllFit(table) && ParseRequest(p, behind).Parsed?
    requires Admitted(cfg, ParseRequest(p, behind).value)
    ensures var m := ParseRequest(p, behind).value;
            && ValidBindings(Nulled(m.oids)) && AllFit(Nulled(m.oids))
            && (m.pdu == 0xA3 ==>
                  Respond(table, cfg, p, behind)
                  == Sends(m.version, m.community, m.id, if m.version == 0 then 2 else 6, 0, Nulled(m.oids), p + behind))
            && (m.pdu !in {0xA0, 0xA1, 0xA3, 0xA5} ==> Respond(table, cfg, p, behind) == Silence)
  {
    hide ParseRequest, Sends, AllFit, Decoded, Nulled, GetAnswers, NextAnswers, BulkAnswers, Settled, AnswerBindings,
         Respond, InTable;
    DecisionLaw(table, cfg, p, behind);
  }

  // ----- GET -----

  /** The first entry that is or lies under `key` is one subidentifier longer. */
  ghost predicate OneLonger(table: seq<Binding>, key: Subids) {
    exists i: nat :: && FirstUnder(BindingOids(table), key, i)
                     && |BindingOids(table)[i].subids| == |key| + 1
  }

  /** The binding for a name asked for: the table's, or the name under noSuchInstance (0x81) if it
      lacks only its last subidentifier, under noSuchObject (0x80) if not. */
  ghost predicate Gets(table: seq<Binding>, o: Oid, b: Binding) {
    if HasName(table, o.subids) then b in table && b.oid.subids == o.subids
    else b == Binding(o, if OneLonger(table, o.subids) then [0x81, 0x00] else [0x80, 0x00])
  }

  lemma GetMeaning(table: seq<Binding>, o: Oid)
    requires Ascending(BindingOids(table)) && LowTable(BindingOids(table))
    ensures var a := GetAnswer(BindingOids(table), o);
            && (a.Stored? <==> HasName(table, o.subids))
            && (a.Stored? ==> a.index < |table|)
            && Gets(table, o, AnswerBinding(table, a))
  {
    hide GetAnswer, Ascending, LowTable, FirstUnder;
    NamePresent(table, o);
    GetAnswerMeaning(BindingOids(table), o, 0);
    if GetAnswer(BindingOids(table), o).Stored? {
      assert table[GetAnswer(BindingOids(table), o).index] in table;
    }
  }

  lemma {:induction false} FirstMissingIs(answers: seq<Answer>, k: nat)
    requires k < |answers| && answers[k].Missing? && AllStored(answers[..k])
    ensures !AllStored(answers) && FirstMissing(answers) == k
  {
    if k > 0 {
      assert answers[..k][0] == answers[0];
      assert answers[1..][..k - 1] == answers[..k][1..];
      FirstMissingIs(answers[1..], k - 1);
    }
  }

  lemma SettledLaw(table: seq<Binding>, version: Int32, answers: seq<Answer>, k: nat)
    requires |answers| <= 16 && InTable(answers, |table|)
    ensures version != 0 || AllStored(answers) ==>
              Settled(table, version, answers) == Send(AnswerBindings(table, answers))
    ensures version == 0 && k < |answers| && answers[k].Missing? && AllStored(answers[..k]) ==>
              Settled(table, version, answers) == Refuse(2, k)
  {
    hide AnswerBindings, InTable;
    if version == 0 && k < |answers| && answers[k].Missing? && AllStored(answers[..k]) {
      FirstMissingIs(answers, k);
    }
  }

  /** A GET (0xA0) that is admitted is answered with the bindings of all its names; in version 1
      only if the table has all of them, and otherwise with noSuchName (2) and the place of the
      first it has not, counted from zero. */
  lemma GetLaw(table: seq<Binding>, cfg: Config, p: seq<Byte>, behind: seq<Byte>) returns (bs: seq<Binding>)
    requires |p| + |behind| == 2048 && ValidBindings(table) && AllFit(table) && ParseRequest(p, behind).Parsed?
    requires var m := ParseRequest(p, behind).value; Admitted(cfg, m) && m.pdu == 0xA0
    requires Ascending(BindingOids(table)) && LowTable(BindingOids(table))
    ensures var m := ParseRequest(p, behind).value;
            && ValidBindings(Nulled(m.oids)) && AllFit(Nulled(m.oids))
            && |bs| == |m.oids| && (forall i :: 0 <= i < |bs| ==> Gets(table, m.oids[i], bs[i]))
            && (m.version == 1 || (forall i :: 0 <= i < |bs| ==> HasName(table, m.oids[i].subids)) ==>
                  && ValidBindings(bs) && AllFit(bs)
                  && Respond(table, cfg, p, behind) == Sends(m.version, m.community, m.id, 0, 0, bs, p + behind))
            && (m.version == 0 ==>
                  forall k :: && 0 <= k < |bs| && !HasName(table, m.oids[k].subids)
                              && (forall i :: 0 <= i < k ==> HasName(table, m.oids[i].subids)) ==>
                    Respond(table, cfg, p, behind) == Sends(0, m.community, m.id, 2, k, Nulled(m.oids), p + behind))
  {
    hide ParseRequest, Sends, AllFit, Decoded, Nulled, Respond, Ascending, LowTable, GetAnswer, Gets, HasName, Settled;
    var m, mib := ParseRequest(p, behind).value, BindingOids(table);
    DecisionLaw(table, cfg, p, behind);
    GetInTable(mib, m.oids);
    var answers := GetAnswers(mib, m.oids);
    bs := AnswerBindings(table, answers);
    forall i | 0 <= i < |bs|
      ensures Gets(table, m.oids[i], bs[i]) && (answers[i].Stored? <==> HasName(table, m.oids[i].subids))
    {
      GetMeaning(table, m.oids[i]);
    }
    SettledLaw(table, m.version, answers, 0);
    forall k | && 0 <= k < |bs| && !HasName(table, m.oids[k].subids)
               && forall i :: 0 <= i < k ==> HasName(table, m.oids[i].subids)
      ensures m.version == 0 ==>
                Respond(table, cfg, p, behind) == Sends(0, m.community, m.id, 2, k, Nulled(m.oids), p + behind)
    {
      SettledLaw(table, m.version, answers, k);
    }
  }

  // ----- GETNEXT -----

  /** The binding that follows a name: the least entry above it, or the name under endOfMibView
      (0x82) if there is none. */
  predicate Follows(table: seq<Binding>, o: Oid, b: Binding) {
    if NoneAbove(table, o.subids) then b == Binding(o, [0x82, 0x00]) else IsSuccessor(table, o.subids, b)
  }

  lemma FollowMeaning(table: seq<Binding>, o: Oid)
    requires Ascending(BindingOids(table))
    ensures var a := NextAnswer(BindingOids(table), o);
            && (a.Missing? <==> NoneAbove(table, o.subids))
            && (a.Stored? ==> a.index < |table|)
            && Follows(table, o, AnswerBinding(table, a))
  {
    hide NoneAbove, IsSuccessor, Ascending, FindNext;
    NextMeaning(table, o);
  }

  /** A GETNEXT (0xA1) that is admitted is answered likewise, with what follows its names. */
  lemma NextLaw(table: seq<Binding>, cfg: Config, p: seq<Byte>, behind: seq<Byte>) returns (bs: seq<Binding>)
    requires |p| + |behind| == 2048 && ValidBindings(table) && AllFit(table) && ParseRequest(p, behind).Parsed?
    requires var m := ParseRequest(p, behind).value; Admitted(cfg, m) && m.pdu == 0xA1
    requires Ascending(BindingOids(table))
    ensures var m := ParseRequest(p, behind).value;
            && ValidBindings(Nulled(m.oids)) && AllFit(Nulled(m.oids))
            && |bs| == |m.oids| && (forall i :: 0 <= i < |bs| ==> Follows(table, m.oids[i], bs[i]))
            && (m.version == 1 || (forall i :: 0 <= i < |bs| ==> !NoneAbove(table, m.oids[i].subids)) ==>
                  && ValidBindings(bs) && AllFit(bs)
                  && Respond(table, cfg, p, behind) == Sends(m.version, m.community, m.id, 0, 0, bs, p + behind))
            && (m.version == 0 ==>
                  forall k :: && 0 <= k < |bs| && NoneAbove(table, m.oids[k].subids)
                              && (forall i :: 0 <= i < k ==> !NoneAbove(table, m.oids[i].subids)) ==>
                    Respond(table, cfg, p, behind) == Sends(0, m.community, m.id, 2, k, Nulled(m.oids), p + behind))
  {
    hide ParseRequest, Sends, AllFit, Decoded, Nulled, Respond, Ascending, NextAnswer, Follows, NoneAbove, Settled;
    var m, mib := ParseRequest(p, behind).value, BindingOids(table);
    DecisionLaw(table, cfg, p, behind);
    NextInTable(mib, m.oids);
    var answers := NextAnswers(mib, m.oids);
    bs := AnswerBindings(table, answers);
    forall i | 0 <= i < |bs|
      ensures Follows(table, m.oids[i], bs[i]) && (answers[i].Missing? <==> NoneAbove(table, m.oids[i].subids))
    {
      FollowMeaning(table, m.oids[i]);
    }
    SettledLaw(table, m.version, answers, 0);
    forall k | && 0 <= k < |bs| && NoneAbove(table, m.oids[k].subids)
               && forall i :: 0 <= i < k ==> !NoneAbove(table, m.oids[i].subids)
      ensures m.version == 0 ==>
                Respond(table, cfg, p, behind) == Sends(0, m.community, m.id, 2, k, Nulled(m.oids), p + behind)
    {
      SettledLaw(table, m.version, answers, k);
    }
  }

  // ----- what a manager reads -----

  /** A refusal of a request with exactly sized names is read as the fields of the request, with
      the status and the index. */
  lemma RefusalIsRead(m: Message, status: Int32, index: Int32, before: seq<Byte>, other: seq<Byte>)
    requires Accepted(m) && |before| == 2048 && forall i :: 0 <= i < |m.oids| ==> Exact(m.oids[i])
    ensures ValidBindings(Nulled(m.oids)) && AllFit(Nulled(m.oids))
    ensures match Sends(m.version, m.community, m.id, status, index, Nulled(m.oids), before)
            case Reply(bytes) =>
              ParseRequest(bytes, other) == Parsed(Message(m.version, m.community, 0xA2, m.id, status, index, m.oids))
            case Failure => true
            case _ => false
  {
    hide Sends, ParseRequest, Nulled, Canonical, Exact, OidTlv;
    NulledFaithful(m.oids);
    ResponseIsRead(m.version, m.community, m.id, status, index, Nulled(m.oids), before, other);
  }

  /** A manager that may not ask reads status 6 or 5 and index 0 under its own names. */
  lemma RefusedAccessIsRead(table: seq<Binding>, cfg: Config, p: seq<Byte>, behind: seq<Byte>, other: seq<Byte>)
    requires |p| + |behind| == 2048 && ValidBindings(table) && AllFit(table) && ParseRequest(p, behind).Parsed?
    requires var m := ParseRequest(p, behind).value;
             !Admitted(cfg, m) && forall i :: 0 <= i < |m.oids| ==> m.oids[i].Valid() && Exact(m.oids[i])
    ensures var m := ParseRequest(p, behind).value;
            match Respond(table, cfg, p, behind)
            case Reply(bytes) =>
              ParseRequest(bytes, other)
              == Parsed(Message(m.version, m.community, 0xA2, m.id, if m.version == 1 then 6 else 5, 0, m.oids))
            case Failure => true
            case _ => false
  {
    hide ParseRequest, Sends, AllFit, Nulled, Respond, Exact, Decoded;
    var m := ParseRequest(p, behind).value;
    AccessLaw(table, cfg, p, behind);
    RefusalIsRead(m, if m.version == 1 then 6 else 5, 0, p + behind, other);
  }

  /** A GET of names that the table has is read as the fields of the request, with status and
      index 0. */
  lemma GetIsRead(table: seq<Binding>, cfg: Config, p: seq<Byte>, behind: seq<Byte>, other: seq<Byte>)
    requires |p| + |behind| == 2048 && Walkable(table) && LowTable(BindingOids(table))
    requires ParseRequest(p, behind).Parsed?
    requires var m := ParseRequest(p, behind).value;
             && Admitted(cfg, m) && m.pdu == 0xA0
             && forall i :: 0 <= i < |m.oids| ==>
                  m.oids[i].Valid() && Exact(m.oids[i]) && HasName(table, m.oids[i].subids)
    ensures ValidBindings(table) && AllFit(table)
    ensures var m := ParseRequest(p, behind).value;
            match Respond(table, cfg, p, behind)
            case Reply(bytes) =>
              ParseRequest(bytes, other) == Parsed(Message(m.version, m.community, 0xA2, m.id, 0, 0, m.oids))
            case Failure => true
            case _ => false
  {
    hide ParseRequest, Sends, AllFit, Nulled, Respond, Exact, Ascending, LowTable, HasName, AllFaithful;
    var m := ParseRequest(p, behind).value;
    TableIsFit(table);
    var bs := GetLaw(table, cfg, p, behind);
    GotAreNames(table, m.oids, bs);
    ResponseIsRead(m.version, m.community, m.id, 0, 0, bs, p + behind, other);
  }

  lemma GotAreNames(table: seq<Binding>, oids: seq<Oid>, bs: seq<Binding>)
    requires AllFaithful(table) && |bs| == |oids|
    requires forall i :: 0 <= i < |oids| ==>
               && oids[i].Valid() && Exact(oids[i]) && HasName(table, oids[i].subids)
               && Gets(table, oids[i], bs[i])
    ensures AllFaithful(bs) && OidsOf(bs) == oids
  {
    hide HasName, OidTlv, Readable, Canonical;
    forall i | 0 <= i < |bs|
      ensures Faithful(bs[i]) && bs[i].oid == oids[i]
    {
      assert Gets(table, oids[i], bs[i]);
      var k :| 0 <= k < |table| && table[k] == bs[i];
      assert Faithful(table[k]);
    }
  }

  // ----- GETBULK -----

  predicate RowFollows(table: seq<Binding>, names: seq<Oid>, row: seq<Binding>) {
    |row| == |names| && forall k :: 0 <= k < |names| ==> Follows(table, names[k], row[k])
  }

  predicate AnyAbove(table: seq<Binding>, names: seq<Oid>) {
    exists k :: 0 <= k < |names| && !NoneAbove(table, names[k].subids)
  }

  /** The names that row `j` goes on from. */
  function From(names: seq<Oid>, rows: seq<seq<Binding>>, j: nat): seq<Oid>
    requires j <= |rows|
  {
    if j == 0 then names else OidsOf(rows[j - 1])
  }

  lemma FirstRowInTable(mib: seq<Oid>, names: seq<Oid>, row: seq<Answer>)
    requires |row| == |names| && forall k :: 0 <= k < |names| ==> row[k] == NextAnswer(mib, names[k])
    ensures InTable(row, |mib|)
  {
    hide FindNext;
  }

  /** A row goes on from the names that the row before has sent. */
  lemma {:induction false} RowIsNext(table: seq<Binding>, names: seq<Oid>, rows: seq<seq<Answer>>, j: nat)
    requires j < |rows| && forall i :: 0 <= i < |rows| ==> RowGoesOn(BindingOids(table), names, rows, i)
    ensures InTable(rows[j], |table|) && |rows[j]| == |names|
    ensures var mib := BindingOids(table);
            if j == 0 then forall k :: 0 <= k < |names| ==> rows[j][k] == NextAnswer(mib, names[k])
            else && InTable(rows[j - 1], |table|) && |rows[j - 1]| == |names|
                 && forall k :: 0 <= k < |names| ==>
                      rows[j][k] == NextAnswer(mib, AnswerBinding(table, rows[j - 1][k]).oid)
  {
    hide FindNext, InTable;
    var mib := BindingOids(table);
    assert RowGoesOn(mib, names, rows, j);
    if j == 0 {
      FirstRowInTable(mib, names, rows[0]);
    } else {
      RowIsNext(table, names, rows, j - 1);
      var before := rows[j - 1];
      forall k | 0 <= k < |names|
        ensures before[k].Stored? ==> before[k].index < |table|
        ensures rows[j][k] == NextAnswer(mib, AnswerBinding(table, before[k]).oid)
      {
        InTableAt(before, |table|, k);
      }
      FirstRowInTable(mib, OidsOf(AnswerBindings(table, before)), rows[j]);
    }
  }

  lemma InTableAt(answers: seq<Answer>, n: nat, k: nat)
    requires InTable(answers, n) && k < |answers|
    ensures answers[k].Stored? ==> answers[k].index < n
  {
  }

  /** A row of answers, as bindings. */
  lemma RowOnWire(table: seq<Binding>, names: seq<Oid>, row: seq<Answer>)
    requires Ascending(BindingOids(table)) && |row| == |names| && InTable(row, |table|)
    requires forall k :: 0 <= k < |names| ==> row[k] == NextAnswer(BindingOids(table), names[k])
    ensures RowFollows(table, names, AnswerBindings(table, row))
    ensures HasEntry(row) <==> AnyAbove(table, names)
  {
    hide Follows, NoneAbove, NextAnswer, Ascending, AnswerBinding;
    forall k | 0 <= k < |names|
      ensures Follows(table, names[k], AnswerBindings(table, row)[k])
      ensures row[k].Stored? <==> !NoneAbove(table, names[k].subids)
    {
      FollowMeaning(table, names[k]);
    }
  }

  lemma {:induction false} FlattenBindings(table: seq<Binding>, rows: seq<seq<Answer>>, sent: seq<seq<Binding>>)
    requires |sent| == |rows|
    requires forall j :: 0 <= j < |rows| ==> InTable(rows[j], |table|) && sent[j] == AnswerBindings(table, rows[j])
    ensures InTable(Flatten(rows), |table|) && AnswerBindings(table, Flatten(rows)) == Flatten(sent)
  {
    if rows != [] {
      FlattenBindings(table, rows[..|rows| - 1], sent[..|sent| - 1]);
    }
  }

  /** The rows of a GETBULK as bindings, and how they go on. */
  lemma RowsOnWire(table: seq<Binding>, names: seq<Oid>, rows: seq<seq<Answer>>) returns (sent: seq<seq<Binding>>)
    requires Ascending(BindingOids(table))
    requires forall i :: 0 <= i < |rows| ==> RowGoesOn(BindingOids(table), names, rows, i)
    ensures |sent| == |rows| && InTable(Flatten(rows), |table|)
    ensures AnswerBindings(table, Flatten(rows)) == Flatten(sent)
    ensures forall j :: 0 <= j < |rows| ==> RowFollows(table, From(names, sent, j), sent[j])
    ensures forall j :: 0 <= j < |rows| ==> (HasEntry(rows[j]) <==> AnyAbove(table, From(names, sent, j)))
  {
    hide RowGoesOn, RowFollows, HasEntry, AnyAbove, NextAnswer, Ascending, InTable;
    forall j | 0 <= j < |rows|
      ensures InTable(rows[j], |table|)
    {
      RowIsNext(table, names, rows, j);
    }
    sent := seq(|rows|, j requires 0 <= j < |rows| => AnswerBindings(table, rows[j]));
    FlattenBindings(table, rows, sent);
    forall j | 0 <= j < |rows|
      ensures RowFollows(table, From(names, sent, j), sent[j])
      ensures HasEntry(rows[j]) <==> AnyAbove(table, From(names, sent, j))
    {
      RowIsNext(table, names, rows, j);
      RowOnWire(table, From(names, sent, j), rows[j]);
    }
  }

  lemma BulkDecision(table: seq<Binding>, cfg: Config, m: Message)
    requires |m.oids| <= 16 && Admitted(cfg, m) && m.pdu == 0xA5 && (m.version == 0 || m.version == 1)
    ensures var answers := BulkAnswers(BindingOids(table), m.nonRepeaters, m.maxRepetitions, m.oids);
            && InTable(answers, |table|)
            && Decide(table, cfg, m)
               == if |answers| > 128 then Overflow else Send(AnswerBindings(table, answers))
  {
    hide GetAnswers, NextAnswers, BulkAnswers, Settled, AnswerBindings, InTable;
    BulkInTable(BindingOids(table), m.nonRepeaters, m.maxRepetitions, m.oids);
  }

  /** A GETBULK (0xA5) that is admitted: the first names, as many as the first count says, are
      each answered with what follows them; then come rows of what follows each of the others,
      each row going on from the row before. There are at most as many rows as the second count
      says; only the last one may find nothing, and if there are fewer, it does. More than 128
      bindings are not sent. */
  lemma BulkWireLaw(table: seq<Binding>, cfg: Config, p: seq<Byte>, behind: seq<Byte>)
    returns (firsts: seq<Binding>, rows: seq<seq<Binding>>)
    requires |p| + |behind| == 2048 && ValidBindings(table) && AllFit(table) && ParseRequest(p, behind).Parsed?
    requires var m := ParseRequest(p, behind).value; Admitted(cfg, m) && m.pdu == 0xA5
    requires Ascending(BindingOids(table))
    ensures var m := ParseRequest(p, behind).value;
            var n := if m.nonRepeaters < 0 then 0 else if m.nonRepeaters < |m.oids| then m.nonRepeaters else |m.oids|;
            var limit := if m.maxRepetitions < 0 then 0 else m.maxRepetitions;
            var bs := firsts + Flatten(rows);
            && RowFollows(table, m.oids[..n], firsts)
            && (forall j :: 0 <= j < |rows| ==> RowFollows(table, From(m.oids[n..], rows, j), rows[j]))
            && |rows| <= limit && |rows| <= |table| + 1
            && (forall j :: 0 <= j < |rows| - 1 ==> AnyAbove(table, From(m.oids[n..], rows, j)))
            && (|rows| < limit ==> rows != [] && !AnyAbove(table, From(m.oids[n..], rows, |rows| - 1)))
            && if |bs| > 128 then Respond(table, cfg, p, behind) == Failure
               else && ValidBindings(bs) && AllFit(bs)
                    && Respond(table, cfg, p, behind) == Sends(m.version, m.community, m.id, 0, 0, bs, p + behind)
  {
    hide ParseRequest, Sends, AllFit, Decoded, Nulled, Respond, Ascending, NextAnswer, RowFollows, AnyAbove, HasEntry,
         BulkAnswers, Decide, RowGoesOn, From, InTable;
    var m, mib := ParseRequest(p, behind).value, BindingOids(table);
    var n := if m.nonRepeaters < 0 then 0 else if m.nonRepeaters < |m.oids| then m.nonRepeaters else |m.oids|;
    DecisionLaw(table, cfg, p, behind);
    BulkDecision(table, cfg, m);
    var a, r := BulkLaw(mib, m.nonRepeaters, m.maxRepetitions, m.oids);
    rows := RowsOnWire(table, m.oids[n..], r);
    FirstRowInTable(mib, m.oids[..n], a);
    firsts := AnswerBindings(table, a);
    RowOnWire(table, m.oids[..n], a);
    BindingsOfSum(table, a, Flatten(r));
  }

  lemma BindingsOfSum(table: seq<Binding>, a: seq<Answer>, b: seq<Answer>)
    requires InTable(a, |table|) && InTable(b, |table|)
    ensures InTable(a + b, |table|)
    ensures AnswerBindings(table, a + b) == AnswerBindings(table, a) + AnswerBindings(table, b)
  {
  }

  // ----- exchanges of octets -----

  /** A request with the octets of these names, each with a NULL. */
  function RequestOctets(v: Int32, c: seq<Byte>, t: Byte, id: Int32, a: Int32, b: Int32, names: seq<Oid>): seq<Byte>
    requires ValidBindings(Nulled(names))
  {
    MessageOctets(v, c, t, id, a, b, BindingsBytes(Nulled(names)))
  }

  predicate Sayable(names: seq<Oid>) {
    forall i :: 0 <= i < |names| ==> Canonical(names[i].subids) && Exact(names[i])
  }

  lemma NulledFaithful(names: seq<Oid>)
    requires Sayable(names)
    ensures AllFaithful(Nulled(names)) && OidsOf(Nulled(names)) == names
  {
    hide Canonical, Exact, Readable;
    NullOctets();
  }

  /** A version 2c GETBULK, from octets to octets: for a table a manager can decode, the reply is
      the message with the bindings that BulkWireLaw describes, if there are at most 128 of them
      and they fit in 2048 octets. */
  lemma BulkExchange(table: seq<Binding>, cfg: Config, id: Int32, a: Int32, b: Int32, names: seq<Oid>, behind: seq<Byte>)
    returns (firsts: seq<Binding>, rows: seq<seq<Binding>>)
    requires Walkable(table) && 1 <= |cfg.community| <= 63 && 0 !in cfg.community
    requires Sayable(names) && |names| <= 16 && ValidBindings(Nulled(names))
    requires |RequestOctets(1, cfg.community, 0xA5, id, a, b, names)| + |behind| == 2048
    ensures ValidBindings(table) && AllFit(table)
    ensures var n := if a < 0 then 0 else if a < |names| then a else |names|;
            var limit := if b < 0 then 0 else b;
            var bs := firsts + Flatten(rows);
            && RowFollows(table, names[..n], firsts)
            && (forall j :: 0 <= j < |rows| ==> RowFollows(table, From(names[n..], rows, j), rows[j]))
            && |rows| <= limit && |rows| <= |table| + 1
            && (forall j :: 0 <= j < |rows| - 1 ==> AnyAbove(table, From(names[n..], rows, j)))
            && (|rows| < limit ==> rows != [] && !AnyAbove(table, From(names[n..], rows, |rows| - 1)))
            && ValidBindings(bs)
            && var reply := MessageOctets(1, cfg.community, 0xA2, id, 0, 0, BindingsBytes(bs));
               Respond(table, cfg, RequestOctets(1, cfg.community, 0xA5, id, a, b, names), behind)
               == if |bs| > 128 || |reply| > 2048 then Failure else Reply(reply)
  {
    hide ParseRequest, Sends, AllFit, Respond, Ascending, RowFollows, AnyAbove, From, MessageOctets, BindingsBytes,
         Canonical, Exact, Readable, AllFaithful;
    var p := RequestOctets(1, cfg.community, 0xA5, id, a, b, names);
    TableIsFit(table);
    NulledFaithful(names);
    MessageLaw(1, cfg.community, 0xA5, id, a, b, Nulled(names), behind);
    firsts, rows := BulkWireLaw(table, cfg, p, behind);
    var bs := firsts + Flatten(rows);
    var n := if a < 0 then 0 else if a < |names| then a else |names|;
    BulkIsExact(table, names, n, firsts, rows);
    if |bs| <= 128 {
      SendsWhole(1, cfg.community, id, 0, 0, bs, p + behind);
    }
  }

  lemma RowIsExact(table: seq<Binding>, names: seq<Oid>, row: seq<Binding>)
    requires AllFaithful(table) && Sayable(names) && RowFollows(table, names, row)
    ensures Sayable(OidsOf(row))
  {
    hide Canonical, Exact, Readable, NoneAbove;
    forall k | 0 <= k < |row|
      ensures Canonical(row[k].oid.subids) && Exact(row[k].oid)
    {
      assert Follows(table, names[k], row[k]);
      if !NoneAbove(table, names[k].subids) {
        var i :| 0 <= i < |table| && table[i] == row[k];
        assert Faithful(table[i]);
      }
    }
  }

  lemma FirstFrom(names: seq<Oid>, rows: seq<seq<Binding>>)
    ensures From(names, rows, 0) == names
  {
  }

  lemma LaterFrom(names: seq<Oid>, rows: seq<seq<Binding>>, j: nat)
    requires 0 < j <= |rows|
    ensures From(names, rows, j) == OidsOf(rows[j - 1])
  {
  }

  lemma {:induction false} RowsAreExact(table: seq<Binding>, names: seq<Oid>, rows: seq<seq<Binding>>, j: nat)
    requires AllFaithful(table) && Sayable(names) && j < |rows|
    requires forall i :: 0 <= i < |rows| ==> RowFollows(table, From(names, rows, i), rows[i])
    ensures Sayable(OidsOf(rows[j]))
  {
    hide AllFaithful, Sayable, RowFollows, OidsOf, From;
    if j == 0 {
      assert From(names, rows, 0) == names by { FirstFrom(names, rows); }
    } else {
      RowsAreExact(table, names, rows, j - 1);
      LaterFrom(names, rows, j);
    }
    assert RowFollows(table, From(names, rows, j), rows[j]);
    RowIsExact(table, From(names, rows, j), rows[j]);
  }

  lemma {:induction false} FlattenSayable(rows: seq<seq<Binding>>)
    requires forall j :: 0 <= j < |rows| ==> Sayable(OidsOf(rows[j]))
    ensures Sayable(OidsOf(Flatten(rows)))
  {
    hide Sayable;
    if rows != [] {
      FlattenSayable(rows[..|rows| - 1]);
      SayableSum(Flatten(rows[..|rows| - 1]), rows[|rows| - 1]);
    } else {
      NothingSayable();
    }
  }

  lemma NothingSayable()
    ensures Sayable(OidsOf([]))
  {
  }

  lemma SayableSum(a: seq<Binding>, b: seq<Binding>)
    requires Sayable(OidsOf(a)) && Sayable(OidsOf(b))
    ensures Sayable(OidsOf(a + b))
  {
    hide Canonical, Exact;
    var s := OidsOf(a + b);
    assert forall i :: 0 <= i < |s| ==> s[i] == if i < |a| then OidsOf(a)[i] else OidsOf(b)[i - |a|];
  }

  lemma BulkIsExact(table: seq<Binding>, names: seq<Oid>, n: nat, firsts: seq<Binding>, rows: seq<seq<Binding>>)
    requires AllFaithful(table) && Sayable(names) && n <= |names|
    requires RowFollows(table, names[..n], firsts)
    requires forall j :: 0 <= j < |rows| ==> RowFollows(table, From(names[n..], rows, j), rows[j])
    ensures ValidBindings(firsts + Flatten(rows)) && AllFit(firsts + Flatten(rows)) && AllExact(firsts + Flatten(rows))
  {
    hide AllFaithful, RowFollows, From, OidTlv;
    RowIsExact(table, names[..n], firsts);
    forall j | 0 <= j < |rows|
      ensures Sayable(OidsOf(rows[j]))
    {
      RowsAreExact(table, names[n..], rows, j);
    }
    FlattenSayable(rows);
    SayableSum(firsts, Flatten(rows));
    SayableFits(firsts + Flatten(rows));
  }

  lemma SayableFits(bs: seq<Binding>)
    requires Sayable(OidsOf(bs))
    ensures ValidBindings(bs) && AllFit(bs) && AllExact(bs)
  {
    hide OidTlv;
    assert forall i :: 0 <= i < |bs| ==> OidsOf(bs)[i] == bs[i].oid;
  }
}
