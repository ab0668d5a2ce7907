/** The request handlers: each appends copies of MIB entries and exceptions to the response. */
module Handlers {
  import opened Types
  import opened Answers
  import opened AnswerLaws
  import opened Messages
  import opened Decoder
  import opened Encoder
  import opened Mib

  /** The encoded exceptions and NULL that every response shares. */
  datatype Statics = Statics(nothing: Data, noSuchObject: Data, noSuchInstance: Data, endOfMibView: Data) {
    function For(kind: Exception): Data {
      match kind
      case NoSuchObject => noSuchObject
      case NoSuchInstance => noSuchInstance
      case EndOfMibView => endOfMibView
    }

    ghost function Buffers(): set<object> {
      {nothing.buffer, noSuchObject.buffer, noSuchInstance.buffer, endOfMibView.buffer}
    }

    ghost predicate Valid()
      reads Buffers()
    {
      && HasBytes(nothing, [0x05, 0x00])
      && HasBytes(noSuchObject, ExceptionBytes(NoSuchObject))
      && HasBytes(noSuchInstance, ExceptionBytes(NoSuchInstance))
      && HasBytes(endOfMibView, ExceptionBytes(EndOfMibView))
    }
  }

  ghost predicate HasBytes(d: Data, bytes: seq<Byte>)
    reads d.buffer
  {
    d.encodedLength == d.buffer.Length && d.buffer[..] == bytes
  }

  /** The shared constants, set up once. */
  method MakeStatics() returns (st: Statics)
    ensures st.Valid() && fresh(st.Buffers())
  {
    var nothing := new Byte[] [0x05, 0x00];
    var noSuchObject := new Byte[] [0x80, 0x00];
    var noSuchInstance := new Byte[] [0x81, 0x00];
    var endOfMibView := new Byte[] [0x82, 0x00];
    st := Statics(Data(nothing, 2, 2), Data(noSuchObject, 2, 2), Data(noSuchInstance, 2, 2),
                  Data(endOfMibView, 2, 2));
  }

  function ExceptionBytes(kind: Exception): seq<Byte> {
    match kind
    case NoSuchObject => [0x80, 0x00]
    case NoSuchInstance => [0x81, 0x00]
    case EndOfMibView => [0x82, 0x00]
  }

  // ----- answers as values and as bindings -----

  predicate InTable(answers: seq<Answer>, n: nat) {
    forall i :: 0 <= i < |answers| && answers[i].Stored? ==> answers[i].index < n
  }

  function ValueOf(entries: seq<Value>, st: Statics, a: Answer): Value
    requires a.Stored? ==> a.index < |entries|
  {
    match a
    case Stored(i) => entries[i]
    case Missing(oid, kind) => Value(oid, st.For(kind))
  }

  function Values(entries: seq<Value>, st: Statics, answers: seq<Answer>): (vs: seq<Value>)
    requires InTable(answers, |entries|)
    ensures |vs| == |answers|
  {
    seq(|answers|, i requires 0 <= i < |answers| => ValueOf(entries, st, answers[i]))
  }

  function AnswerBinding(table: seq<Binding>, a: Answer): Binding
    requires a.Stored? ==> a.index < |table|
  {
    match a
    case Stored(i) => table[i]
    case Missing(oid, kind) => Binding(oid, ExceptionBytes(kind))
  }

  function AnswerBindings(table: seq<Binding>, answers: seq<Answer>): seq<Binding>
    requires InTable(answers, |table|)
  {
    seq(|answers|, i requires 0 <= i < |answers| => AnswerBinding(table, answers[i]))
  }

  lemma ValuesAppend(entries: seq<Value>, st: Statics, front: seq<Answer>, a: Answer)
    requires InTable(front, |entries|) && (a.Stored? ==> a.index < |entries|)
    ensures InTable(front + [a], |entries|)
    ensures Values(entries, st, front + [a]) == Values(entries, st, front) + [ValueOf(entries, st, a)]
  {
  }

  /** The answers that are appended before the handler returns. */
  function Appended(version: Int32, answers: seq<Answer>): seq<Answer>
    requires |answers| <= MAX_NR_OIDS
  {
    match Settle(version, answers)
    case Answers(list) => list
    case Error(_, i) => answers[..i]
  }

  /** `response` after a handler that answers with `answers`. */
  twostate predicate Answered(response: Response, entries: seq<Value>, st: Statics, version: Int32,
                              answers: seq<Answer>)
    requires |answers| <= MAX_NR_OIDS && InTable(Appended(version, answers), |entries|)
    reads response
  {
    && response.valueList == old(response.valueList) + Values(entries, st, Appended(version, answers))
    && match Settle(version, answers)
       case Answers(_) => response.errorStatus == old(response.errorStatus)
                          && response.errorIndex == old(response.errorIndex)
       case Error(status, index) => response.errorStatus == status && response.errorIndex == index
  }

  lemma GetInTable(mib: seq<Oid>, oids: seq<Oid>)
    ensures InTable(GetAnswers(mib, oids), |mib|)
  {
  }

  lemma NextInTable(mib: seq<Oid>, oids: seq<Oid>)
    ensures InTable(NextAnswers(mib, oids), |mib|)
  {
  }

  lemma AppendedInTable(version: Int32, answers: seq<Answer>, n: nat)
    requires InTable(answers, n) && |answers| <= MAX_NR_OIDS
    ensures InTable(Appended(version, answers), n)
  {
  }

  /** While nothing missing has ended a version 1 request, all answers so far are appended;
      the first that does ends it. */
  lemma AppendedSoFar(version: Int32, answers: seq<Answer>, i: nat)
    requires i < |answers| <= MAX_NR_OIDS
    requires version == SNMP_VERSION_1 ==> AllStored(answers[..i])
    ensures |Appended(version, answers)| >= i
    ensures version == SNMP_VERSION_1 && answers[i].Missing? ==>
              Settle(version, answers) == Error(STATUS_NO_SUCH_NAME, i) && Appended(version, answers) == answers[..i]
    ensures !(version == SNMP_VERSION_1 && answers[i].Missing?) ==> |Appended(version, answers)| > i
  {
    if version == SNMP_VERSION_1 && !AllStored(answers) {
      var k := FirstMissing(answers);
      assert k > i ==> answers[..k][i] == answers[i];
    }
  }

  // ----- the handlers -----

  method Append(response: Response, v: Value) returns (ok: bool)
    modifies response`valueList
    ensures ok <==> |old(response.valueList)| < MAX_NR_VALUES
    ensures response.valueList == if ok then old(response.valueList) + [v] else old(response.valueList)
  {
    ok := |response.valueList| < MAX_NR_VALUES;
    if ok {
      response.valueList := response.valueList + [v];
    }
  }

  /** What GET finds under a name: an entry, or the exception version 2c sends in its place. */
  method LookUp(mib: Mib, st: Statics, oid: Oid) returns (found: bool, value: Value)
    ensures var a := GetAnswer(Oids(mib.entries), oid);
            && (found <==> a.Stored?)
            && (found ==> a.index < |mib.entries|)
            && value == ValueOf(mib.entries, st, a)
  {
    hide Find;
    var pos := mib.MibFind(oid);
    if pos >= |mib.entries| {
      return false, Value(oid, st.noSuchObject);
    } else if |mib.entries[pos].oid.subids| == |oid.subids| + 1 {
      return false, Value(oid, st.noSuchInstance);
    } else if |mib.entries[pos].oid.subids| != |oid.subids| {
      return false, Value(oid, st.noSuchObject);
    }
    return true, mib.entries[pos];
  }

  /** What GETNEXT and GETBULK find after a name. */
  method LookUpNext(mib: Mib, st: Statics, oid: Oid) returns (found: bool, value: Value)
    ensures var a := NextAnswer(Oids(mib.entries), oid);
            && (found <==> a.Stored?)
            && value == ValueOf(mib.entries, st, a)
            && value.oid == After(Oids(mib.entries), oid)
  {
    hide FindNext;
    var pos := mib.MibFindNext(oid);
    if pos >= |mib.entries| {
      return false, Value(oid, st.endOfMibView);
    }
    return true, mib.entries[pos];
  }

  /** GET; it fails only if the response has no room for the answers. */
  method HandleGet(mib: Mib, st: Statics, request: Request, response: Response) returns (ok: bool)
    requires |request.oidList| <= MAX_NR_OIDS && |response.valueList| <= MAX_NR_VALUES
    modifies response
    ensures var answers := GetAnswers(Oids(mib.entries), request.oidList);
            && InTable(Appended(request.version, answers), |mib.entries|)
            && (ok <==> |old(response.valueList)| + |Appended(request.version, answers)| <= MAX_NR_VALUES)
            && (ok ==> Answered(response, mib.entries, st, request.version, answers))
  {
    hide Settle, FirstMissing, Appended, GetAnswer, NextAnswer, ValueOf;
    ghost var oids := Oids(mib.entries);
    ghost var answers := GetAnswers(oids, request.oidList);
    GetInTable(oids, request.oidList);
    AppendedInTable(request.version, answers, |oids|);
    for i := 0 to |request.oidList|
      invariant request.version == SNMP_VERSION_1 ==> AllStored(answers[..i])
      invariant |old(response.valueList)| + i <= MAX_NR_VALUES
      invariant response.valueList == old(response.valueList) + Values(mib.entries, st, answers[..i])
      invariant response.errorStatus == old(response.errorStatus) && response.errorIndex == old(response.errorIndex)
    {
      AppendedSoFar(request.version, answers, i);
      assert answers[..i + 1] == answers[..i] + [answers[i]];
      ValuesAppend(mib.entries, st, answers[..i], answers[i]);
      var found, value := LookUp(mib, st, request.oidList[i]);
      if !found && request.version == SNMP_VERSION_1 {
        response.errorStatus, response.errorIndex := STATUS_NO_SUCH_NAME, i;
        return true;
      }
      ok := Append(response, value);
      if !ok {
        return;
      }
    }
    AppendedAll(request.version, answers);
    ok := true;
  }

  lemma AppendedAll(version: Int32, answers: seq<Answer>)
    requires |answers| <= MAX_NR_OIDS && (version == SNMP_VERSION_1 ==> AllStored(answers[..|answers|]))
    ensures Settle(version, answers) == Answers(answers)
    ensures Appended(version, answers) == answers == answers[..|answers|]
  {
    assert answers[..|answers|] == answers;
  }

  /** GETNEXT, likewise. */
  method HandleGetNext(mib: Mib, st: Statics, request: Request, response: Response) returns (ok: bool)
    requires |request.oidList| <= MAX_NR_OIDS && |response.valueList| <= MAX_NR_VALUES
    modifies response
    ensures var answers := NextAnswers(Oids(mib.entries), request.oidList);
            && InTable(Appended(request.version, answers), |mib.entries|)
            && (ok <==> |old(response.valueList)| + |Appended(request.version, answers)| <= MAX_NR_VALUES)
            && (ok ==> Answered(response, mib.entries, st, request.version, answers))
  {
    hide Settle, FirstMissing, Appended, GetAnswer, NextAnswer, ValueOf;
    ghost var oids := Oids(mib.entries);
    ghost var answers := NextAnswers(oids, request.oidList);
    NextInTable(oids, request.oidList);
    AppendedInTable(request.version, answers, |oids|);
    for i := 0 to |request.oidList|
      invariant request.version == SNMP_VERSION_1 ==> AllStored(answers[..i])
      invariant |old(response.valueList)| + i <= MAX_NR_VALUES
      invariant response.valueList == old(response.valueList) + Values(mib.entries, st, answers[..i])
      invariant response.errorStatus == old(response.errorStatus) && response.errorIndex == old(response.errorIndex)
    {
      AppendedSoFar(request.version, answers, i);
      assert answers[..i + 1] == answers[..i] + [answers[i]];
      ValuesAppend(mib.entries, st, answers[..i], answers[i]);
      var found, value := LookUpNext(mib, st, request.oidList[i]);
      if !found && request.version == SNMP_VERSION_1 {
        response.errorStatus, response.errorIndex := STATUS_NO_SUCH_NAME, i;
        return true;
      }
      ok := Append(response, value);
      if !ok {
        return;
      }
    }
    AppendedAll(request.version, answers);
    ok := true;
  }

  method HandleSet(request: Request, response: Response)
    modifies response
    ensures response.errorStatus
            == if request.version == SNMP_VERSION_1 then STATUS_NO_SUCH_NAME else STATUS_NO_ACCESS
    ensures response.errorIndex == 0 && response.valueList == old(response.valueList)
  {
    response.errorStatus := if request.version == SNMP_VERSION_1 then STATUS_NO_SUCH_NAME else STATUS_NO_ACCESS;
    response.errorIndex := 0;
  }

  lemma NotExhausted()
    ensures Exhausted([])
  {
  }

  lemma ExhaustedAppend(answers: seq<Answer>, a: Answer)
    ensures Exhausted(answers + [a]) <==> Exhausted(answers) && a.Missing?
  {
    assert (answers + [a])[|answers|] == a;
    assert forall k :: 0 <= k < |answers| ==> answers[k] == (answers + [a])[k];
  }

  /** `after` is `oids` with the names from `first` up to `i` replaced by their successors. */
  predicate Advanced(mib: seq<Oid>, oids: seq<Oid>, after: seq<Oid>, first: nat, i: nat) {
    && |after| == |oids|
    && forall k :: 0 <= k < |oids| ==> after[k] == if first <= k < i then After(mib, oids[k]) else oids[k]
  }

  /** One round over the repeaters, which are advanced; the inner loop of GETBULK. */
  method BulkRound(mib: Mib, st: Statics, oids: seq<Oid>, first: nat, response: Response)
    returns (ok: bool, after: seq<Oid>, foundRepeater: nat)
    requires first <= |oids| && |response.valueList| <= MAX_NR_VALUES
    modifies response`valueList
    ensures var answers := NextAnswers(Oids(mib.entries), oids[first..]);
            && InTable(answers, |mib.entries|)
            && (ok <==> |old(response.valueList)| + |answers| <= MAX_NR_VALUES)
            && (ok ==> response.valueList == old(response.valueList) + Values(mib.entries, st, answers))
            && (ok ==> (foundRepeater == 0 <==> Exhausted(answers)))
            && (ok ==> Advanced(Oids(mib.entries), oids, after, first, |oids|))
  {
    hide NextAnswer, After, ValueOf, Exhausted, Values;
    ghost var table := Oids(mib.entries);
    ghost var answers := NextAnswers(table, oids[first..]);
    NoValues(mib.entries, st);
    NotExhausted();
    NextInTable(table, oids[first..]);
    after, foundRepeater := oids, 0;
    for i := first to |oids|
      invariant Advanced(table, oids, after, first, i)
      invariant response.valueList == old(response.valueList) + Values(mib.entries, st, answers[..i - first])
      invariant |old(response.valueList)| + (i - first) <= MAX_NR_VALUES
      invariant foundRepeater == 0 <==> Exhausted(answers[..i - first])
    {
      ghost var k := i - first;
      assert answers[..k + 1] == answers[..k] + [answers[k]];
      assert answers[k] == NextAnswer(table, oids[i]);
      ValuesAppend(mib.entries, st, answers[..k], answers[k]);
      ExhaustedAppend(answers[..k], answers[k]);
      var found, value := LookUpNext(mib, st, after[i]);
      ok := Append(response, value);
      if !ok {
        return;
      }
      after := after[i := value.oid];
      if found {
        foundRepeater := foundRepeater + 1;
      }
    }
    assert answers[..|answers|] == answers;
    ok := true;
  }

  lemma ValuesConcat(entries: seq<Value>, st: Statics, a: seq<Answer>, b: seq<Answer>)
    requires InTable(a, |entries|) && InTable(b, |entries|)
    ensures InTable(a + b, |entries|)
    ensures Values(entries, st, a + b) == Values(entries, st, a) + Values(entries, st, b)
  {
  }

  /** The first loop of GETBULK: single successors of the first `n` names. */
  method BulkSingles(mib: Mib, st: Statics, oids: seq<Oid>, nonRepeaters: nat, response: Response)
    returns (ok: bool)
    requires |response.valueList| <= MAX_NR_VALUES
    modifies response`valueList
    ensures var n := if nonRepeaters <= |oids| then nonRepeaters else |oids|;
            var answers := NextAnswers(Oids(mib.entries), oids[..n]);
            && InTable(answers, |mib.entries|)
            && (ok <==> |old(response.valueList)| + |answers| <= MAX_NR_VALUES)
            && (ok ==> response.valueList == old(response.valueList) + Values(mib.entries, st, answers))
  {
    hide NextAnswer, ValueOf;
    ghost var table := Oids(mib.entries);
    ghost var n := if nonRepeaters <= |oids| then nonRepeaters else |oids|;
    ghost var answers := NextAnswers(table, oids[..n]);
    NextInTable(table, oids[..n]);
    var i := 0;
    while i < |oids|
      invariant 0 <= i <= n
      invariant response.valueList == old(response.valueList) + Values(mib.entries, st, answers[..i])
      invariant |old(response.valueList)| + i <= MAX_NR_VALUES
    {
      if i >= nonRepeaters {
        break;
      }
      assert answers[..i + 1] == answers[..i] + [answers[i]];
      ValuesAppend(mib.entries, st, answers[..i], answers[i]);
      var found, value := LookUpNext(mib, st, oids[i]);
      ok := Append(response, value);
      if !ok {
        return;
      }
      i := i + 1;
    }
    assert answers[..n] == answers;
    ok := true;
  }

  /** The names the repeaters continue from in round `j`. */
  function IterateAll(mib: seq<Oid>, repeaters: seq<Oid>, j: nat): seq<Oid> {
    seq(|repeaters|, k requires 0 <= k < |repeaters| => Iterate(mib, repeaters[k], j))
  }

  lemma RoundIsNext(mib: seq<Oid>, oids: seq<Oid>, after: seq<Oid>, first: nat, repeaters: seq<Oid>, j: nat)
    requires first <= |oids| && oids[first..] == IterateAll(mib, repeaters, j)
    ensures NextAnswers(mib, oids[first..]) == Round(mib, repeaters, j)
    ensures Advanced(mib, oids, after, first, |oids|) ==> after[first..] == IterateAll(mib, repeaters, j + 1)
  {
    hide NextAnswer, After;
    var here := oids[first..];
    assert |here| == |repeaters|;
    assert forall k :: 0 <= k < |here| ==> here[k] == oids[first + k] == Iterate(mib, repeaters[k], j);
    assert forall k :: 0 <= k < |here| ==> NextAnswers(mib, here)[k] == Round(mib, repeaters, j)[k];
    if Advanced(mib, oids, after, first, |oids|) {
      assert forall k :: 0 <= k < |here| ==> after[first..][k] == after[first + k] == After(mib, oids[first + k]);
    }
  }

  lemma {:induction false} ConcatMonotone<T>(row: nat -> seq<T>, m: nat, n: nat)
    requires m <= n
    ensures |Concat(row, m)| <= |Concat(row, n)|
  {
    if m < n {
      ConcatMonotone(row, m, n - 1);
    }
  }

  lemma {:induction false} RoundsInTable(mib: seq<Oid>, repeaters: seq<Oid>, n: nat)
    ensures InTable(Concat(RoundOf(mib, repeaters), n), |mib|)
  {
    if n > 0 {
      RoundsInTable(mib, repeaters, n - 1);
      assert InTable(Round(mib, repeaters, n - 1), |mib|);
    }
  }

  lemma BulkInTable(mib: seq<Oid>, nonRepeaters: Int32, maxRepetitions: Int32, oids: seq<Oid>)
    ensures InTable(BulkAnswers(mib, nonRepeaters, maxRepetitions, oids), |mib|)
  {
    hide NextAnswers, Concat, RoundOf, RoundCount;
    var n := Singles(nonRepeaters, oids);
    NextInTable(mib, oids[..n]);
    RoundsInTable(mib, oids[n..], RoundCount(mib, oids[n..], Clamp(maxRepetitions)));
  }

  /** The second loop of GETBULK: rounds over the names from `first` on. It fails exactly when
      the rounds to be sent do not all fit. */
  method BulkRounds(mib: Mib, st: Statics, oids: seq<Oid>, first: nat, limit: nat, response: Response)
    returns (ok: bool)
    requires first <= |oids| && |response.valueList| <= MAX_NR_VALUES
    modifies response`valueList
    ensures var repeaters := oids[first..];
            var answers := Concat(RoundOf(Oids(mib.entries), repeaters),
                                  RoundCount(Oids(mib.entries), repeaters, limit));
            && InTable(answers, |mib.entries|)
            && (ok <==> |old(response.valueList)| + |answers| <= MAX_NR_VALUES)
            && (ok ==> response.valueList == old(response.valueList) + Values(mib.entries, st, answers))
  {
    hide Round, NextAnswers, Advanced, Iterate, Exhausted, Values;
    ghost var table, repeaters := Oids(mib.entries), oids[first..];
    ghost var row, stop := RoundOf(table, repeaters), ExhaustedAt(table, repeaters);
    ghost var total := RoundCount(table, repeaters, limit);
    RoundsInTable(table, repeaters, total);
    RoundsInTable(table, repeaters, 0);
    NoValues(mib.entries, st);
    FirstNames(table, repeaters);
    var oidList, j := oids, 0;
    while j < limit
      invariant 0 <= j <= limit && total == j + CountUntil(stop, limit, j)
      invariant |oidList| == |oids| && oidList[first..] == IterateAll(table, repeaters, j)
      invariant InTable(Concat(row, j), |table|)
      invariant response.valueList == old(response.valueList) + Values(mib.entries, st, Concat(row, j))
      invariant |response.valueList| <= MAX_NR_VALUES
      invariant |response.valueList| == |old(response.valueList)| + |Concat(row, j)|
    {
      var after, foundRepeater;
      ghost var before := oidList;
      RoundsInTable(table, repeaters, j + 1);
      ok, after, foundRepeater := BulkRound(mib, st, oidList, first, response);
      RoundIsNext(table, before, after, first, repeaters, j);
      assert row(j) == Round(table, repeaters, j) == NextAnswers(table, before[first..]);
      assert Concat(row, j + 1) == Concat(row, j) + row(j);
      if !ok {
        ConcatMonotone(row, j + 1, total);
        return;
      }
      ValuesConcat(mib.entries, st, Concat(row, j), row(j));
      AdvancedLength(table, before, after, first);
      oidList := after;
      j := j + 1;
      if foundRepeater == 0 {
        break;
      }
    }
    ok := true;
  }

  lemma AdvancedLength(mib: seq<Oid>, oids: seq<Oid>, after: seq<Oid>, first: nat)
    requires Advanced(mib, oids, after, first, |oids|)
    ensures |after| == |oids|
  {
  }

  lemma NoValues(entries: seq<Value>, st: Statics)
    ensures Values(entries, st, []) == []
  {
  }

  lemma FirstNames(mib: seq<Oid>, repeaters: seq<Oid>)
    ensures IterateAll(mib, repeaters, 0) == repeaters
  {
  }

  /** GETBULK. Negative counts become zero; the call fails exactly when the closed-form answer
      does not fit the response. */
  method HandleGetBulk(mib: Mib, st: Statics, request: Request, response: Response) returns (ok: bool)
    requires |request.oidList| <= MAX_NR_OIDS && |response.valueList| <= MAX_NR_VALUES
    modifies request`nonRepeaters, request`maxRepetitions, response`valueList
    ensures request.nonRepeaters == Clamp(old(request.nonRepeaters))
    ensures request.maxRepetitions == Clamp(old(request.maxRepetitions))
    ensures var answers := BulkAnswers(Oids(mib.entries), old(request.nonRepeaters),
                                       old(request.maxRepetitions), request.oidList);
            && InTable(answers, |mib.entries|)
            && (ok <==> |old(response.valueList)| + |answers| <= MAX_NR_VALUES)
            && (ok ==> response.valueList == old(response.valueList) + Values(mib.entries, st, answers))
  {
    hide NextAnswers, Concat, RoundOf, RoundCount, Values;
    ghost var table := Oids(mib.entries);
    BulkInTable(table, request.nonRepeaters, request.maxRepetitions, request.oidList);
    if request.nonRepeaters < 0 {
      request.nonRepeaters := 0;
    }
    if request.maxRepetitions < 0 {
      request.maxRepetitions := 0;
    }
    var oidList := request.oidList;
    ok := BulkSingles(mib, st, oidList, request.nonRepeaters, response);
    if !ok {
      return;
    }
    var first := if request.nonRepeaters <= |oidList| then request.nonRepeaters else |oidList|;
    ghost var singles := NextAnswers(table, oidList[..first]);
    ok := BulkRounds(mib, st, oidList, first, request.maxRepetitions, response);
    ValuesConcat(mib.entries, st, singles,
                 Concat(RoundOf(table, oidList[first..]), RoundCount(table, oidList[first..], request.maxRepetitions)));
  }
}
