/** What GET, GETNEXT and GETBULK have to answer, as entries of the MIB table or exceptions.
    Only the OIDs of the table matter here; see Handlers for the code that copies values. */
module Answers {
  import opened Types
  import opened OidOrder

  datatype Exception = NoSuchObject | NoSuchInstance | EndOfMibView

  datatype Answer =
    | Stored(index: nat)                     // a copy of that MIB entry
    | Missing(oid: Oid, kind: Exception)     // the OID asked for, under an exception

  datatype Reply =
    | Answers(list: seq<Answer>)
    | Error(status: Int32, index: Int32)

  // ----- the two searches -----

  predicate Above(mib: seq<Oid>, i: nat, key: Subids)
    requires i < |mib|
  {
    Cmp(mib[i].subids, key) > 0
  }

  /** The first entry at `pos` or later that compares above `key`. */
  function FindNextFrom(mib: seq<Oid>, key: Subids, pos: nat): (p: nat)
    requires pos <= |mib|
    ensures pos <= p <= |mib|
    ensures forall i :: pos <= i < p ==> !Above(mib, i, key)
    ensures p < |mib| ==> Above(mib, p, key)
    decreases |mib| - pos
  {
    if pos == |mib| || Above(mib, pos, key) then pos else FindNextFrom(mib, key, pos + 1)
  }

  function FindNext(mib: seq<Oid>, key: Subids): (p: nat)
    ensures p <= |mib|
  {
    FindNextFrom(mib, key, 0)
  }

  /** The first entry at `pos` or later that is `key` or extends it. */
  function FindFrom(mib: seq<Oid>, key: Subids, pos: nat): (p: nat)
    requires pos <= |mib|
    ensures pos <= p <= |mib|
    ensures forall i :: pos <= i < p ==> !(key <= mib[i].subids)
    ensures p < |mib| ==> key <= mib[p].subids
    decreases |mib| - pos
  {
    if pos == |mib| || key <= mib[pos].subids then pos else FindFrom(mib, key, pos + 1)
  }

  function Find(mib: seq<Oid>, key: Subids): (p: nat)
    ensures p <= |mib|
  {
    FindFrom(mib, key, 0)
  }

  // ----- GET and GETNEXT -----

  function GetAnswer(mib: seq<Oid>, o: Oid): Answer {
    var p := Find(mib, o.subids);
    if p == |mib| then Missing(o, NoSuchObject)
    else if |mib[p].subids| == |o.subids| + 1 then Missing(o, NoSuchInstance)
    else if |mib[p].subids| != |o.subids| then Missing(o, NoSuchObject)
    else Stored(p)
  }

  function NextAnswer(mib: seq<Oid>, o: Oid): (a: Answer)
    ensures a.Stored? ==> a.index < |mib|
  {
    var p := FindNext(mib, o.subids);
    if p == |mib| then Missing(o, EndOfMibView) else Stored(p)
  }

  function GetAnswers(mib: seq<Oid>, oids: seq<Oid>): (answers: seq<Answer>)
    ensures |answers| == |oids|
  {
    seq(|oids|, i requires 0 <= i < |oids| => GetAnswer(mib, oids[i]))
  }

  function NextAnswers(mib: seq<Oid>, oids: seq<Oid>): (answers: seq<Answer>)
    ensures |answers| == |oids|
  {
    seq(|oids|, i requires 0 <= i < |oids| => NextAnswer(mib, oids[i]))
  }

  predicate AllStored(answers: seq<Answer>) {
    forall i :: 0 <= i < |answers| ==> answers[i].Stored?
  }

  function FirstMissing(answers: seq<Answer>): (i: nat)
    requires !AllStored(answers)
    ensures i < |answers| && answers[i].Missing? && AllStored(answers[..i])
  {
    if answers[0].Missing? then 0 else FirstMissing(answers[1..]) + 1
  }

  /** Version 1 has no exceptions: the first missing name makes the reply an error, with a
      zero-based index. */
  function Settle(version: Int32, answers: seq<Answer>): (r: Reply)
    requires |answers| <= MAX_NR_OIDS
    ensures r.Error? ==> 0 <= r.index < |answers| && AllStored(answers[..r.index])
  {
    if version == SNMP_VERSION_1 && !AllStored(answers)
    then Error(STATUS_NO_SUCH_NAME, FirstMissing(answers))
    else Answers(answers)
  }

  // ----- GETBULK (section 4.2.3 of RFC 3416) -----

  /** The OID a repeater continues from. */
  function After(mib: seq<Oid>, o: Oid): Oid {
    match NextAnswer(mib, o)
    case Stored(p) => mib[p]
    case Missing(_, _) => o
  }

  function Iterate(mib: seq<Oid>, o: Oid, n: nat): Oid {
    if n == 0 then o else After(mib, Iterate(mib, o, n - 1))
  }

  /** The answers of the repeaters in round `j`, counted from zero. */
  function Round(mib: seq<Oid>, repeaters: seq<Oid>, j: nat): seq<Answer> {
    seq(|repeaters|, k requires 0 <= k < |repeaters| => NextAnswer(mib, Iterate(mib, repeaters[k], j)))
  }

  predicate Exhausted(answers: seq<Answer>) {
    forall k :: 0 <= k < |answers| ==> answers[k].Missing?
  }

  function RoundOf(mib: seq<Oid>, repeaters: seq<Oid>): nat -> seq<Answer> {
    (j: nat) => Round(mib, repeaters, j)
  }

  function ExhaustedAt(mib: seq<Oid>, repeaters: seq<Oid>): nat -> bool {
    (j: nat) => Exhausted(Round(mib, repeaters, j))
  }

  function Concat<T>(row: nat -> seq<T>, n: nat): seq<T> {
    if n == 0 then [] else Concat(row, n - 1) + row(n - 1)
  }

  /** How many steps are taken from step `j` on, below `limit`, the last being the first that
      says stop. */
  function CountUntil(stop: nat -> bool, limit: nat, j: nat): nat
    decreases limit - j
  {
    if j >= limit then 0 else if stop(j) then 1 else 1 + CountUntil(stop, limit, j + 1)
  }

  /** The number of rounds sent: they end with the first in which every repeater is past the
      end of the table. */
  function RoundCount(mib: seq<Oid>, repeaters: seq<Oid>, limit: nat): nat {
    CountUntil(ExhaustedAt(mib, repeaters), limit, 0)
  }

  function Clamp(n: Int32): (r: Int32)
    ensures r >= 0
  {
    if n < 0 then 0 else n
  }

  function Singles(nonRepeaters: Int32, oids: seq<Oid>): (r: nat)
    ensures r <= |oids|
  {
    if Clamp(nonRepeaters) <= |oids| then Clamp(nonRepeaters) else |oids|
  }

  function BulkAnswers(mib: seq<Oid>, nonRepeaters: Int32, maxRepetitions: Int32, oids: seq<Oid>): seq<Answer> {
    var n := Singles(nonRepeaters, oids);
    NextAnswers(mib, oids[..n])
    + Concat(RoundOf(mib, oids[n..]), RoundCount(mib, oids[n..], Clamp(maxRepetitions)))
  }
}
