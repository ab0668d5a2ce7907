/** The table this agent serves, and why one pass of the moving cursor updates all of it. */
module MibTable {
  import opened Types
  import opened Machine
  import opened Ber
  import opened OidCodec
  import opened OidOrder
  import opened Answers
  import opened AnswerLaws
  import opened Messages
  import opened Encoder
  import opened Mib

  // ----- the moving cursor -----

  lemma AscendingDistinct(mib: seq<Oid>, i: nat, j: nat)
    requires Ascending(mib) && i < j < |mib|
    ensures mib[i].subids != mib[j].subids
  {
    assert Above(mib, j, mib[i].subids);
    CmpIsTotalPreorder(mib[i].subids, mib[i].subids, mib[i].subids);
  }

  lemma LocateEntry(mib: seq<Oid>, i: nat, pos: nat)
    requires Ascending(mib) && pos <= i < |mib|
    ensures Locate(mib, mib[i].subids, pos) == i
  {
    var p := Locate(mib, mib[i].subids, pos);
    if p < i {
      AscendingDistinct(mib, p, i);
    }
  }

  /** A search that starts at the cursor finds what a search from the start finds exactly when
      that does not lie before the cursor. */
  lemma CursorAgrees(mib: seq<Oid>, target: Subids, pos: nat)
    requires Ascending(mib) && pos <= |mib|
    ensures Locate(mib, target, pos) == Locate(mib, target, 0) <==> pos <= Locate(mib, target, 0)
  {
    var p := Locate(mib, target, 0);
    if pos <= p < |mib| {
      LocateEntry(mib, p, pos);
    }
  }

  /** Where the cursor stands after the first `n` updates. */
  function Cursor(mib: seq<Oid>, targets: seq<Subids>, n: nat): (pos: nat)
    requires n <= |targets|
    ensures pos <= |mib|
  {
    if n == 0 then 0 else Locate(mib, targets[n - 1], Cursor(mib, targets, n - 1))
  }

  /** For updates in table order, repetitions included, each one finds its entry just as a
      search of the whole table would. */
  lemma {:induction false} CursorFollows(mib: seq<Oid>, targets: seq<Subids>, at: seq<nat>, n: nat)
    requires Ascending(mib) && n <= |targets| == |at|
    requires forall i :: 0 <= i < |at| ==> at[i] < |mib| && mib[at[i]].subids == targets[i]
    requires forall i, j :: 0 <= i < j < |at| ==> at[i] <= at[j]
    ensures n > 0 ==> Cursor(mib, targets, n) == at[n - 1] == Locate(mib, targets[n - 1], 0)
  {
    if n > 0 {
      CursorFollows(mib, targets, at, n - 1);
      LocateEntry(mib, at[n - 1], 0);
      LocateEntry(mib, at[n - 1], if n == 1 then 0 else at[n - 2]);
    }
  }

  // ----- the table -----

  const DEMO: Subids := [1, 3, 6, 1, 4, 1, 125]
  const SDK: Subids := [1, 3, 6, 1, 4, 1, 126, 3]

  /** Twenty dry contacts, four single readings and four relays. */
  function SdkCell(i: nat): (Int32, Int32)
    requires i < 28
  {
    if i < 20 then (1, i) else if i < 24 then (i - 18, 0) else (6, i - 24)
  }

  datatype CellName = CellName(prefix: Subids, column: Int32, row: Int32)

  /** The cells in the order of the calls; the first two only in a build with __DEMO__. */
  function Cells(demo: bool): seq<CellName> {
    (if demo then [CellName(DEMO, 1, 0), CellName(DEMO, 2, 0)] else [])
    + seq(28, i requires 0 <= i < 28 => CellName(SDK, SdkCell(i).0, SdkCell(i).1))
  }

  function CellSubids(c: CellName): Subids {
    Cell(c.prefix, ToUnsigned(c.column), ToUnsigned(c.row))
  }

  /** `mib` holds these cells, in this order. */
  predicate HoldsCells(mib: seq<Oid>, cells: seq<CellName>) {
    && |mib| == |cells|
    && forall i :: 0 <= i < |cells| ==> mib[i].subids == CellSubids(cells[i])
  }

  lemma {:induction false} LexSamePrefix(prefix: Subids, a: Subids, b: Subids)
    ensures Lex(prefix + a, prefix + b) == Lex(a, b)
  {
    if prefix == [] {
      assert [] + a == a && [] + b == b;
    } else {
      LexSamePrefix(prefix[1..], a, b);
      assert (prefix + a)[1..] == prefix[1..] + a && (prefix + b)[1..] == prefix[1..] + b;
    }
  }

  lemma CellsAscend(demo: bool, i: nat, j: nat)
    requires i < j < |Cells(demo)|
    ensures Lex(CellSubids(Cells(demo)[i]), CellSubids(Cells(demo)[j])) == -1
  {
    var c, d := Cells(demo)[i], Cells(demo)[j];
    var a, b := [ToUnsigned(c.column), ToUnsigned(c.row)], [ToUnsigned(d.column), ToUnsigned(d.row)];
    if c.prefix == d.prefix {
      LexSamePrefix(c.prefix, a, b);
      assert a[1..] == [a[1]] && b[1..] == [b[1]];
    } else {
      var common: Subids := [1, 3, 6, 1, 4, 1];
      LexSamePrefix(common, [125] + a, [126, 3] + b);
      assert common + ([125] + a) == CellSubids(c) && common + ([126, 3] + b) == CellSubids(d);
    }
  }

  lemma CellIsCanonical(demo: bool, i: nat)
    requires i < |Cells(demo)|
    ensures Canonical(CellSubids(Cells(demo)[i])) && Low(CellSubids(Cells(demo)[i]))
  {
  }

  /** The table built in this order is one the searches and the walk can rely on. */
  lemma CellsMakeATable(mib: seq<Oid>, demo: bool)
    requires HoldsCells(mib, Cells(demo))
    ensures Ascending(mib) && LowTable(mib)
    ensures forall i :: 0 <= i < |mib| ==> Canonical(mib[i].subids)
  {
    hide Cells, CellSubids, Lex, Cmp;
    forall i | 0 <= i < |mib|
      ensures Canonical(mib[i].subids) && Low(mib[i].subids)
    {
      CellIsCanonical(demo, i);
    }
    forall i, j | 0 <= i < j < |mib|
      ensures Cmp(mib[j].subids, mib[i].subids) > 0
    {
      CellsAscend(demo, i, j);
      LowCmp(mib[i].subids, mib[j].subids);
      CmpIsTotalPreorder(mib[i].subids, mib[j].subids, mib[i].subids);
    }
    AscendingFrom(mib);
  }

  lemma AscendingFrom(mib: seq<Oid>)
    requires forall i, j :: 0 <= i < j < |mib| ==> Cmp(mib[j].subids, mib[i].subids) > 0
    ensures Ascending(mib)
  {
  }

  /** The names of this agent, written out. */
  predicate SdkNames(mib: seq<Oid>, demo: bool) {
    var k := if demo then 2 else 0;
    && |mib| == k + 28
    && (demo ==> mib[0].subids == [1, 3, 6, 1, 4, 1, 125, 1, 0] && mib[1].subids == [1, 3, 6, 1, 4, 1, 125, 2, 0])
    && (forall i :: k <= i < k + 20 ==> mib[i].subids == [1, 3, 6, 1, 4, 1, 126, 3, 1, i - k])
    && mib[k + 20].subids == [1, 3, 6, 1, 4, 1, 126, 3, 2, 0] && mib[k + 21].subids == [1, 3, 6, 1, 4, 1, 126, 3, 3, 0]
    && mib[k + 22].subids == [1, 3, 6, 1, 4, 1, 126, 3, 4, 0] && mib[k + 23].subids == [1, 3, 6, 1, 4, 1, 126, 3, 5, 0]
    && mib[k + 24].subids == [1, 3, 6, 1, 4, 1, 126, 3, 6, 0] && mib[k + 25].subids == [1, 3, 6, 1, 4, 1, 126, 3, 6, 1]
    && mib[k + 26].subids == [1, 3, 6, 1, 4, 1, 126, 3, 6, 2] && mib[k + 27].subids == [1, 3, 6, 1, 4, 1, 126, 3, 6, 3]
  }

  lemma CellNames(mib: seq<Oid>, demo: bool)
    requires HoldsCells(mib, Cells(demo))
    ensures SdkNames(mib, demo)
  {
    var k := if demo then 2 else 0;
    forall i | k <= i < k + 28
      ensures mib[i].subids == SDK + [ToUnsigned(SdkCell(i - k).0), ToUnsigned(SdkCell(i - k).1)]
    {
      assert mib[i].subids == CellSubids(Cells(demo)[i]);
    }
    if demo {
      assert mib[0].subids == CellSubids(Cells(demo)[0]) && mib[1].subids == CellSubids(Cells(demo)[1]);
    }
  }

  lemma IntegerRoom(v: Int32)
    ensures |IntegerTlv(v)| <= 6
  {
    HeaderForms(INTEGER, IntegerOctets(v));
  }

  /** The state `mib_build` leaves and every `mib_update` keeps. */
  ghost predicate Built(mib: Mib, demo: bool)
    reads mib
  {
    && mib.Valid()
    && HoldsCells(Oids(mib.entries), Cells(demo))
    && forall i :: 0 <= i < |mib.entries| ==> mib.entries[i].data.maxLength == 6
  }

  /** The value part of every entry. */
  ghost predicate Holds(mib: Mib, words: seq<UInt32>)
    requires mib.Valid()
    reads mib, Buffers(mib.entries)
  {
    |words| == |mib.entries|
    && forall i :: 0 <= i < |words| ==> mib.View()[i].value == IntegerTlv(ToSigned(words[i]))
  }

  /** `mib_build`: it cannot fail, and leaves all cells ascending and zero. */
  method MibBuild(mib: Mib, demo: bool) returns (ok: bool)
    requires mib.entries == []
    modifies mib
    ensures ok && Built(mib, demo)
    ensures Holds(mib, seq(|Cells(demo)|, _ => 0))
    ensures Ascending(Oids(mib.entries)) && LowTable(Oids(mib.entries))
    ensures SdkNames(Oids(mib.entries), demo)
    ensures fresh(Buffers(mib.entries))
  {
    hide IntegerTlv, CellSubids, Cells, ValidEntry, Ascending, ZeroCells, AllSix, Buffers, Oids, HoldsCells, Cell,
         SdkNames;
    var cells := Cells(demo);
    ghost var bs: seq<Binding> := [];
    NoCells(cells);
    for n := 0 to |cells|
      invariant mib.Valid() && |mib.entries| == n && mib.View() == bs
      invariant ZeroCells(bs, cells, n) && AllSix(mib.entries)
      invariant fresh(Buffers(mib.entries))
    {
      CellPrefix(demo, n);
      ghost var before := mib.entries;
      BuildingFate(INTEGER, Word(0));
      var fate := mib.BuildEntry(cells[n].prefix, cells[n].column, cells[n].row, INTEGER, Word(0));
      if fate != Written {
        return false;
      }
      CellAppended(bs, mib.View()[n], cells, n);
      EntryAppended(before, mib.entries);
      bs := bs + [mib.View()[n]];
    }
    ok := true;
    TableIsBuilt(mib, demo);
    CellsMakeATable(Oids(mib.entries), demo);
    CellNames(Oids(mib.entries), demo);
  }

  /** The first `n` cells, all zero. */
  predicate ZeroCells(bs: seq<Binding>, cells: seq<CellName>, n: nat) {
    && n == |bs| <= |cells|
    && forall i :: 0 <= i < n ==> bs[i].oid.subids == CellSubids(cells[i]) && bs[i].value == IntegerTlv(0)
  }

  predicate AllSix(entries: seq<Value>) {
    forall i :: 0 <= i < |entries| ==> entries[i].data.maxLength == 6
  }

  lemma NoCells(cells: seq<CellName>)
    ensures ZeroCells([], cells, 0) && AllSix([])
    ensures Buffers([]) == {}
  {
  }

  lemma CellAppended(bs: seq<Binding>, b: Binding, cells: seq<CellName>, n: nat)
    requires ZeroCells(bs, cells, n) && n < |cells|
    requires b.oid.subids == CellSubids(cells[n]) && b.value == IntegerTlv(0)
    ensures ZeroCells(bs + [b], cells, n + 1)
  {
    hide IntegerTlv, CellSubids;
  }

  lemma EntryAppended(before: seq<Value>, after: seq<Value>)
    requires after != [] && after[..|after| - 1] == before && AllSix(before)
    requires after[|after| - 1].data.maxLength == 6
    ensures AllSix(after)
    ensures Buffers(after) == Buffers(before) + {after[|after| - 1].data.buffer}
  {
    var n := |before|;
    assert forall i :: 0 <= i < n ==> after[i] == before[i];
    forall x | x in Buffers(after)
      ensures x in Buffers(before) + {after[n].data.buffer}
    {
      var i :| 0 <= i < |after| && x == after[i].data.buffer;
      assert i < n ==> after[i] == before[i];
    }
    forall x | x in Buffers(before)
      ensures x in Buffers(after)
    {
      var i :| 0 <= i < n && x == before[i].data.buffer;
      assert after[i] == before[i];
    }
  }

  lemma TableIsBuilt(mib: Mib, demo: bool)
    requires mib.Valid() && |mib.entries| == |Cells(demo)|
    requires ZeroCells(mib.View(), Cells(demo), |Cells(demo)|) && AllSix(mib.entries)
    ensures Built(mib, demo) && Holds(mib, seq(|Cells(demo)|, _ => 0))
  {
    hide IntegerTlv, CellSubids, Cells;
    forall i | 0 <= i < |mib.entries|
      ensures Oids(mib.entries)[i].subids == CellSubids(Cells(demo)[i])
    {
      assert ValidEntry(mib.entries[i]);
      assert mib.View()[i] == BindingOf(mib.entries[i]);
    }
  }

  lemma CellPrefix(demo: bool, i: nat)
    requires i < |Cells(demo)|
    ensures |Cells(demo)| <= 30 && |Cells(demo)[i].prefix| <= 8
    ensures CellSubids(Cells(demo)[i])
            == Cell(Cells(demo)[i].prefix, ToUnsigned(Cells(demo)[i].column), ToUnsigned(Cells(demo)[i].row))
  {
  }

  /** `mib_update`: after `mib_build` it never fails. A full update sets every value, whatever
      the new ones are; a partial one changes nothing. */
  method MibUpdate(mib: Mib, full: bool, demo: bool, words: seq<UInt32>) returns (ok: bool)
    requires Built(mib, demo) && |words| == |Cells(demo)|
    modifies mib, Buffers(mib.entries)
    ensures ok && Built(mib, demo)
    ensures full ==> Holds(mib, words)
    ensures !full ==> mib.View() == old(mib.View())
    ensures Oids(mib.entries) == old(Oids(mib.entries))
  {
    hide IntegerTlv, CellSubids, Cells, ValidEntry, Ascending, Locate;
    if full {
      var cells := Cells(demo);
      ghost var oids := Oids(mib.entries);
      CellsMakeATable(oids, demo);
      var pos := 0;
      for n := 0 to |cells|
        invariant mib.Valid() && Oids(mib.entries) == oids && |mib.entries| == |cells|
        invariant pos == if n == 0 then 0 else n - 1
        invariant forall i :: 0 <= i < |cells| ==> mib.entries[i].data.maxLength == 6
        invariant forall i :: 0 <= i < |cells| ==> mib.entries[i].data.buffer == old(mib.entries[i].data.buffer)
        invariant forall i :: 0 <= i < n ==> mib.View()[i].value == IntegerTlv(ToSigned(words[i]))
      {
        CellPrefix(demo, n);
        LocateEntry(oids, n, pos);
        IntegerRoom(ToSigned(words[n]));
        assert Buffers(mib.entries) == old(Buffers(mib.entries));
        ghost var view := mib.View();
        var fate;
        fate, pos := mib.UpdateEntry(cells[n].prefix, cells[n].column, cells[n].row, pos, INTEGER, Word(words[n]));
        if fate != Written {
          return false;
        }
        assert forall i :: 0 <= i < |cells| && i != n ==> mib.View()[i] == view[i];
        assert mib.View()[n].value == IntegerTlv(ToSigned(words[n]));
      }
    }
    ok := true;
  }
}
