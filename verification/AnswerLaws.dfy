/** What the answers mean: searches over an ascending table, the closed form of GETBULK and
    its end, and what a walk visits. */
module AnswerLaws {
  import opened Types
  import opened OidOrder
  import opened Answers

  /** The order in which the table has to be built. */
  predicate Ascending(mib: seq<Oid>) {
    forall i, j :: 0 <= i < j < |mib| ==> Above(mib, j, mib[i].subids)
  }

  predicate LowTable(mib: seq<Oid>) {
    forall i :: 0 <= i < |mib| ==> mib[i].Valid() && Low(mib[i].subids)
  }

  // ----- successor search -----

  /** On any table, a larger key never finds an earlier successor. */
  lemma FindNextMonotone(mib: seq<Oid>, key: Subids, key': Subids)
    requires Cmp(key, key') <= 0
    ensures FindNext(mib, key) <= FindNext(mib, key')
  {
    var p := FindNext(mib, key');
    if p < |mib| {
      CmpIsTotalPreorder(mib[p].subids, key', key);
      CmpIsTotalPreorder(key, key', key);
      assert Above(mib, p, key);
    }
  }

  /** On an ascending table the successor is the least entry above the key: the entries
      before it are not above, those from it on are. */
  lemma FindNextSplits(mib: seq<Oid>, key: Subids, i: nat)
    requires Ascending(mib) && i < |mib|
    ensures Above(mib, i, key) <==> FindNext(mib, key) <= i
  {
    var p := FindNext(mib, key);
    if p < i {
      assert Above(mib, i, mib[p].subids);
      CmpIsTotalPreorder(mib[i].subids, mib[p].subids, key);
    }
  }

  lemma NextOfEntry(mib: seq<Oid>, q: nat)
    requires Ascending(mib) && q < |mib|
    ensures FindNext(mib, mib[q].subids) == q + 1
  {
    FindNextSplits(mib, mib[q].subids, q);
    CmpIsTotalPreorder(mib[q].subids, mib[q].subids, mib[q].subids);
    if q + 1 < |mib| {
      assert Above(mib, q + 1, mib[q].subids);
      FindNextSplits(mib, mib[q].subids, q + 1);
    }
  }

  // ----- prefix search -----

  lemma AscendingLex(mib: seq<Oid>, i: nat, j: nat)
    requires Ascending(mib) && LowTable(mib) && i <= j < |mib|
    ensures Lex(mib[i].subids, mib[j].subids) <= 0
    ensures i < j ==> Lex(mib[i].subids, mib[j].subids) < 0
  {
    LowCmp(mib[i].subids, mib[j].subids);
    CmpIsTotalPreorder(mib[i].subids, mib[j].subids, mib[i].subids);
    if i < j {
      assert Above(mib, j, mib[i].subids);
    }
  }

  /** The entries that extend a key form one block without gaps. */
  lemma BlockHasNoGaps(mib: seq<Oid>, key: Subids, i: nat, j: nat, k: nat)
    requires Ascending(mib) && LowTable(mib) && i <= j <= k < |mib|
    requires key <= mib[i].subids && key <= mib[k].subids
    ensures key <= mib[j].subids
  {
    AscendingLex(mib, i, j);
    AscendingLex(mib, j, k);
    LexPrefix(key, mib[i].subids, mib[j].subids, mib[k].subids);
  }

  /** A name that is in the table is found before anything that extends it. */
  lemma FindExact(mib: seq<Oid>, i: nat)
    requires Ascending(mib) && LowTable(mib) && i < |mib|
    ensures Find(mib, mib[i].subids) == i
  {
    var p := Find(mib, mib[i].subids);
    if p < i {
      AscendingLex(mib, p, i);
      LexPrefix(mib[i].subids, mib[p].subids, [], []);
      LowCmp(mib[i].subids, mib[p].subids);
      LowCmp(mib[p].subids, mib[i].subids);
      CmpIsTotalPreorder(mib[p].subids, mib[i].subids, mib[p].subids);
    }
  }

  /** Entry `p` is the first one that is `key` or lies below it in the tree. */
  predicate FirstUnder(mib: seq<Oid>, key: Subids, p: nat): (r: bool)
    ensures r ==> p < |mib|
  {
    p < |mib| && key <= mib[p].subids && forall q :: 0 <= q < p ==> !(key <= mib[q].subids)
  }

  lemma FirstIsFound(mib: seq<Oid>, key: Subids, p: nat)
    ensures FirstUnder(mib, key, p) <==> p == Find(mib, key) && p < |mib|
  {
    var found := Find(mib, key);
    if FirstUnder(mib, key, p) && found < |mib| {
      assert key <= mib[found].subids;
      assert !(found < p) && !(p < found);
    }
  }

  /** A GET answers with an entry exactly when the table has that very OID, says
      noSuchInstance exactly when it has not but the first entry below that OID in the tree
      is one subid longer, and noSuchObject exactly when there is no entry below that OID or the
      first one is longer still. */
  lemma GetAnswerMeaning(mib: seq<Oid>, o: Oid, i: nat)
    requires Ascending(mib) && LowTable(mib)
    ensures GetAnswer(mib, o) == Stored(i) <==> i < |mib| && mib[i].subids == o.subids
    ensures GetAnswer(mib, o) == Missing(o, NoSuchInstance)
            <==> exists p: nat :: FirstUnder(mib, o.subids, p) && |mib[p].subids| == |o.subids| + 1
    ensures GetAnswer(mib, o) == Missing(o, NoSuchObject)
            <==> forall p: nat :: FirstUnder(mib, o.subids, p) ==> |mib[p].subids| > |o.subids| + 1
    ensures GetAnswer(mib, o).Missing? ==>
              GetAnswer(mib, o).oid == o && GetAnswer(mib, o).kind in {NoSuchInstance, NoSuchObject}
  {
    if i < |mib| && mib[i].subids == o.subids {
      FindExact(mib, i);
    }
    var p := Find(mib, o.subids);
    FirstIsFound(mib, o.subids, p);
    forall q: nat | FirstUnder(mib, o.subids, q)
      ensures q == p
    {
      FirstIsFound(mib, o.subids, q);
    }
    assert p < |mib| && |mib[p].subids| == |o.subids| ==> mib[p].subids == o.subids;
  }

  // ----- GETBULK -----

  lemma {:induction false} ConcatLength<T>(row: nat -> seq<T>, width: nat, n: nat)
    requires forall i: nat :: |row(i)| == width
    ensures |Concat(row, n)| == n * width
  {
    if n > 0 {
      ConcatLength(row, width, n - 1);
      assert n * width == (n - 1) * width + width;
    }
  }

  lemma {:induction false} ConcatAt<T>(row: nat -> seq<T>, width: nat, n: nat, j: nat, k: nat)
    requires forall i: nat :: |row(i)| == width
    requires j < n && k < width
    ensures j * width + k < |Concat(row, n)| && Concat(row, n)[j * width + k] == row(j)[k]
  {
    ConcatLength(row, width, n - 1);
    if j < n - 1 {
      ConcatAt(row, width, n - 1, j, k);
    }
  }

  lemma RoundsAreRegular(mib: seq<Oid>, repeaters: seq<Oid>)
    ensures forall j: nat :: |RoundOf(mib, repeaters)(j)| == |repeaters|
  {
  }

  lemma AfterPrefix<T>(a: seq<T>, b: seq<T>, i: nat)
    requires i < |b|
    ensures (a + b)[|a| + i] == b[i]
  {
  }

  lemma RoundsAt(mib: seq<Oid>, repeaters: seq<Oid>, n: nat, j: nat, k: nat)
    requires j < n && k < |repeaters|
    ensures j * |repeaters| + k < |Concat(RoundOf(mib, repeaters), n)|
    ensures Concat(RoundOf(mib, repeaters), n)[j * |repeaters| + k]
            == NextAnswer(mib, Iterate(mib, repeaters[k], j))
  {
    hide NextAnswer, Iterate, Concat;
    RoundsAreRegular(mib, repeaters);
    ConcatAt(RoundOf(mib, repeaters), |repeaters|, n, j, k);
    assert RoundOf(mib, repeaters)(j) == Round(mib, repeaters, j);
  }

  /** The closed form: answer n + j*r + k is what repeater k reaches after j more successors. */
  lemma BulkClosedForm(mib: seq<Oid>, nonRepeaters: Int32, maxRepetitions: Int32, oids: seq<Oid>,
                       j: nat, k: nat)
    requires var repeaters := oids[Singles(nonRepeaters, oids)..];
             j < RoundCount(mib, repeaters, Clamp(maxRepetitions)) && k < |repeaters|
    ensures var n := Singles(nonRepeaters, oids);
            var repeaters := oids[n..];
            var answers := BulkAnswers(mib, nonRepeaters, maxRepetitions, oids);
            && n + (j * |repeaters| + k) < |answers|
            && answers[n + (j * |repeaters| + k)] == NextAnswer(mib, Iterate(mib, repeaters[k], j))
  {
    hide NextAnswer, NextAnswers, Iterate, Round, RoundOf, RoundCount, Concat, Singles;
    var n := Singles(nonRepeaters, oids);
    var repeaters := oids[n..];
    var rounds := RoundCount(mib, repeaters, Clamp(maxRepetitions));
    RoundsAt(mib, repeaters, rounds, j, k);
    var at := j * |repeaters| + k;
    AfterPrefix(NextAnswers(mib, oids[..n]), Concat(RoundOf(mib, repeaters), rounds), at);
  }

  /** Before the rounds come single successors of the first n names. */
  lemma BulkStart(mib: seq<Oid>, nonRepeaters: Int32, maxRepetitions: Int32, oids: seq<Oid>)
    ensures var n := Singles(nonRepeaters, oids);
            var answers := BulkAnswers(mib, nonRepeaters, maxRepetitions, oids);
            && |answers| == n + RoundCount(mib, oids[n..], Clamp(maxRepetitions)) * (|oids| - n)
            && answers[..n] == NextAnswers(mib, oids[..n])
  {
    var n := Singles(nonRepeaters, oids);
    RoundsAreRegular(mib, oids[n..]);
    ConcatLength(RoundOf(mib, oids[n..]), |oids| - n, RoundCount(mib, oids[n..], Clamp(maxRepetitions)));
  }

  /** The steps taken are all those below the limit, or those up to the first that says stop. */
  lemma {:induction false} CountUntilMeaning(stop: nat -> bool, limit: nat, j: nat)
    requires j <= limit
    ensures var last := j + CountUntil(stop, limit, j);
            && last <= limit
            && (forall i: nat :: j <= i < last - 1 ==> !stop(i))
            && (last < limit ==> last > j && stop(last - 1))
    decreases limit - j
  {
    if j < limit && !stop(j) {
      CountUntilMeaning(stop, limit, j + 1);
    }
  }

  ghost function EntriesAbove(mib: seq<Oid>, key: Subids): set<nat> {
    set i | 0 <= i < |mib| && Above(mib, i, key)
  }

  lemma StepShrinks(mib: seq<Oid>, o: Oid)
    requires NextAnswer(mib, o).Stored?
    ensures EntriesAbove(mib, After(mib, o).subids) < EntriesAbove(mib, o.subids)
  {
    var p := FindNext(mib, o.subids);
    CmpIsTotalPreorder(mib[p].subids, mib[p].subids, o.subids);
    forall i | i in EntriesAbove(mib, mib[p].subids)
      ensures i in EntriesAbove(mib, o.subids)
    {
      CmpIsTotalPreorder(mib[i].subids, mib[p].subids, o.subids);
    }
    assert p in EntriesAbove(mib, o.subids) && p !in EntriesAbove(mib, mib[p].subids);
  }

  /** Every live round has used up an entry above the starting point. */
  lemma {:induction false} LiveRepeaterRanks(mib: seq<Oid>, o: Oid, j: nat)
    requires NextAnswer(mib, Iterate(mib, o, j)).Stored?
    ensures j < |mib|
    ensures j + |EntriesAbove(mib, Iterate(mib, o, j).subids)| <= |mib|
  {
    var at := Iterate(mib, o, j);
    if j == 0 {
      CountBelow(mib, at.subids, |mib|);
    } else {
      var before := Iterate(mib, o, j - 1);
      LiveRepeaterRanks(mib, o, j - 1);
      StepShrinks(mib, before);
      StrictlySmaller(EntriesAbove(mib, at.subids), EntriesAbove(mib, before.subids));
    }
    assert FindNext(mib, at.subids) in EntriesAbove(mib, at.subids);
  }

  lemma {:induction false} CountBelow(mib: seq<Oid>, key: Subids, n: nat)
    requires n <= |mib|
    ensures |set i | 0 <= i < n && Above(mib, i, key)| <= n
  {
    if n > 0 {
      CountBelow(mib, key, n - 1);
      var fewer := set i | 0 <= i < n - 1 && Above(mib, i, key);
      var these := set i | 0 <= i < n && Above(mib, i, key);
      Smaller(these, fewer + {n - 1});
    }
  }

  lemma Smaller<T>(a: set<T>, b: set<T>)
    requires a <= b
    ensures |a| <= |b|
  {
    assert b == a + (b - a);
  }

  lemma StrictlySmaller<T>(a: set<T>, b: set<T>)
    requires a < b
    ensures |a| < |b|
  {
    var x :| x in b && x !in a;
    Smaller(a, b - {x});
  }

  lemma RoundAtEnd(mib: seq<Oid>, repeaters: seq<Oid>)
    ensures ExhaustedAt(mib, repeaters)(|mib|)
  {
    forall k | 0 <= k < |repeaters|
      ensures Round(mib, repeaters, |mib|)[k].Missing?
    {
      if Round(mib, repeaters, |mib|)[k].Stored? {
        LiveRepeaterRanks(mib, repeaters[k], |mib|);
      }
    }
  }

  /** Even on a table in no order, and whatever the client asks for, GETBULK runs at most one
      round more than the table has entries; a larger limit changes nothing. */
  lemma BulkEnds(mib: seq<Oid>, repeaters: seq<Oid>, limit: nat)
    ensures RoundCount(mib, repeaters, limit) <= |mib| + 1
    ensures limit > |mib| ==> RoundCount(mib, repeaters, limit) == RoundCount(mib, repeaters, |mib| + 1)
  {
    RoundAtEnd(mib, repeaters);
    CountUntilMeaning(ExhaustedAt(mib, repeaters), limit, 0);
    if limit > |mib| {
      LimitIrrelevant(ExhaustedAt(mib, repeaters), |mib|, limit, 0);
    }
  }

  lemma {:induction false} LimitIrrelevant(stop: nat -> bool, end: nat, limit: nat, j: nat)
    requires stop(end) && j <= end < limit
    ensures CountUntil(stop, limit, j) == CountUntil(stop, end + 1, j)
    decreases end - j
  {
    if !stop(j) {
      LimitIrrelevant(stop, end, limit, j + 1);
    }
  }

  /** On an ascending table a repeater reads consecutive entries, then stays on the last. */
  lemma {:induction false} RepeaterReadsOn(mib: seq<Oid>, o: Oid, n: nat)
    requires Ascending(mib)
    ensures var p := FindNext(mib, o.subids);
            var at := Iterate(mib, o, n);
            && NextAnswer(mib, at) == (if p + n < |mib| then Stored(p + n) else Missing(at, EndOfMibView))
            && at == if n == 0 || p == |mib| then o else if p + n <= |mib| then mib[p + n - 1] else mib[|mib| - 1]
  {
    hide FindNext, Ascending;
    var p := FindNext(mib, o.subids);
    if n > 0 {
      RepeaterReadsOn(mib, o, n - 1);
      if p < |mib| {
        NextOfEntry(mib, if p + n <= |mib| then p + n - 1 else |mib| - 1);
      }
    }
  }

  /** A version 2c GETNEXT is a GETBULK with one repetition of everything. */
  lemma NextIsBulk(mib: seq<Oid>, oids: seq<Oid>)
    ensures BulkAnswers(mib, 0, 1, oids) == NextAnswers(mib, oids)
  {
    assert oids[..0] == [] && oids[0..] == oids;
    assert NextAnswers(mib, []) == [];
    var row := RoundOf(mib, oids);
    assert Concat(row, 0) == [];
    assert Concat(row, 1) == row(0) == Round(mib, oids, 0);
    assert Round(mib, oids, 0) == NextAnswers(mib, oids);
    assert CountUntil(ExhaustedAt(mib, oids), 1, 1) == 0;
  }

  // ----- what a GETBULK answers, read off the answers alone -----

  function Flatten<T>(rows: seq<seq<T>>): seq<T> {
    if rows == [] then [] else Flatten(rows[..|rows| - 1]) + rows[|rows| - 1]
  }

  lemma {:induction false} ConcatIsFlat<T>(row: nat -> seq<T>, rows: seq<seq<T>>)
    requires forall j :: 0 <= j < |rows| ==> rows[j] == row(j)
    ensures Concat(row, |rows|) == Flatten(rows)
  {
    if rows != [] {
      ConcatIsFlat(row, rows[..|rows| - 1]);
    }
  }

  /** The answer of one repeater in the next round. */
  function Onward(mib: seq<Oid>, a: Answer): Answer {
    match a
    case Stored(q) => if q < |mib| then NextAnswer(mib, mib[q]) else a
    case Missing(_, _) => a
  }

  lemma RoundGoesOn(mib: seq<Oid>, repeaters: seq<Oid>, j: nat, k: nat)
    requires k < |repeaters|
    ensures Round(mib, repeaters, 0)[k] == NextAnswer(mib, repeaters[k])
    ensures j > 0 ==> Round(mib, repeaters, j)[k] == Onward(mib, Round(mib, repeaters, j - 1)[k])
  {
    hide FindNext;
  }

  lemma RoundCountMeaning(mib: seq<Oid>, repeaters: seq<Oid>, limit: nat, j: nat)
    ensures var t := RoundCount(mib, repeaters, limit);
            && t <= limit && (t < limit ==> t > 0)
            && (j < t - 1 ==> exists k :: 0 <= k < |repeaters| && Round(mib, repeaters, j)[k].Stored?)
            && (j == t - 1 && t < limit ==> forall k :: 0 <= k < |repeaters| ==> Round(mib, repeaters, j)[k].Missing?)
  {
    hide CountUntil, NextAnswer, Iterate;
    var stop := ExhaustedAt(mib, repeaters);
    CountUntilMeaning(stop, limit, 0);
    if j < RoundCount(mib, repeaters, limit) - 1 {
      assert !stop(j);
      var k :| 0 <= k < |Round(mib, repeaters, j)| && !Round(mib, repeaters, j)[k].Missing?;
      assert Round(mib, repeaters, j)[k].Stored?;
    }
  }

  /** The first row gives the successor of every name; a later one goes on from the row before. */
  predicate RowGoesOn(mib: seq<Oid>, names: seq<Oid>, rows: seq<seq<Answer>>, j: nat)
    requires j < |rows|
  {
    var row := rows[j];
    && |row| == |names|
    && if j == 0 then forall k :: 0 <= k < |names| ==> row[k] == NextAnswer(mib, names[k])
       else var before := rows[j - 1];
            |before| == |names| && forall k :: 0 <= k < |names| ==> row[k] == Onward(mib, before[k])
  }

  predicate HasEntry(row: seq<Answer>) {
    exists k :: 0 <= k < |row| && row[k].Stored?
  }

  /** The first `n` names get one answer each. Then come rows of one answer for each other name,
      at most as many as asked for and at most one more than the table has entries. Every row but
      the last has an entry; unless there are as many rows as asked for, the last has none. */
  lemma BulkLaw(mib: seq<Oid>, nonRepeaters: Int32, maxRepetitions: Int32, oids: seq<Oid>)
    returns (firsts: seq<Answer>, rows: seq<seq<Answer>>)
    ensures BulkAnswers(mib, nonRepeaters, maxRepetitions, oids) == firsts + Flatten(rows)
    ensures var n := if nonRepeaters < 0 then 0 else if nonRepeaters < |oids| then nonRepeaters else |oids|;
            var limit := if maxRepetitions < 0 then 0 else maxRepetitions;
            && |firsts| == n && (forall i :: 0 <= i < n ==> firsts[i] == NextAnswer(mib, oids[i]))
            && (forall j :: 0 <= j < |rows| ==> RowGoesOn(mib, oids[n..], rows, j))
            && |rows| <= limit && |rows| <= |mib| + 1
            && (forall j :: 0 <= j < |rows| - 1 ==> HasEntry(rows[j]))
            && (|rows| < limit ==> rows != [] && !HasEntry(rows[|rows| - 1]))
  {
    hide NextAnswer, Round, RoundCount, Concat, Onward;
    var n := Singles(nonRepeaters, oids);
    var repeaters, limit := oids[n..], Clamp(maxRepetitions);
    var t := RoundCount(mib, repeaters, limit);
    firsts := NextAnswers(mib, oids[..n]);
    rows := seq(t, j requires 0 <= j < t => Round(mib, repeaters, j));
    ConcatIsFlat(RoundOf(mib, repeaters), rows);
    BulkEnds(mib, repeaters, limit);
    RoundCountMeaning(mib, repeaters, limit, 0);
    forall j | 0 <= j < t
      ensures RowGoesOn(mib, repeaters, rows, j)
      ensures j < t - 1 ==> HasEntry(rows[j])
      ensures j == t - 1 && t < limit ==> !HasEntry(rows[j])
    {
      RoundLength(mib, repeaters, j);
      RoundLength(mib, repeaters, if j > 0 then j - 1 else j);
      RoundCountMeaning(mib, repeaters, limit, j);
      forall k | 0 <= k < |repeaters|
        ensures j == 0 ==> Round(mib, repeaters, j)[k] == NextAnswer(mib, repeaters[k])
        ensures j > 0 ==> Round(mib, repeaters, j)[k] == Onward(mib, Round(mib, repeaters, j - 1)[k])
      {
        RoundGoesOn(mib, repeaters, j, k);
      }
    }
  }

  lemma RoundLength(mib: seq<Oid>, repeaters: seq<Oid>, j: nat)
    ensures |Round(mib, repeaters, j)| == |repeaters|
  {
  }
}
