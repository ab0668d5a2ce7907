/** The MIB table: built entry by entry, updated in place through a moving cursor, searched
    by prefix and by successor. */
module Mib {
  import opened Types
  import opened Machine
  import opened Ber
  import opened IntegerCodec
  import opened OidCodec
  import opened OidOrder
  import opened OidText
  import opened Answers
  import opened AnswerLaws
  import opened Messages
  import opened Writer
  import opened Encoder

  /** A new value as it is handed over: a machine word, or a C string. */
  datatype Arg = Word(word: UInt32) | Chars(s: seq<Byte>)

  predicate IsUnsigned(tag: Byte) {
    tag == COUNTER || tag == GAUGE || tag == TIME_TICKS
  }

  /** The caller passes strings for the string types and words for the number types; the word
      0 stands for a null pointer. */
  predicate Matches(tag: Byte, arg: Arg) {
    && (tag == INTEGER || IsUnsigned(tag) ==> arg.Word?)
    && (tag == OCTET_STRING || tag == OID ==> arg.Chars? || arg == Word(0))
  }

  /** The encoded value, or None where building and updating refuse. */
  function Encoding(tag: Byte, arg: Arg): Option<seq<Byte>> {
    if arg.Word? then
      if tag == INTEGER then Some(IntegerTlv(ToSigned(arg.word)))
      else if IsUnsigned(tag) then Some(UnsignedTlv(tag, arg.word))
      else None
    else if tag == OCTET_STRING && |arg.s| <= 0xFFFF then Some(StringTlv(arg.s))
    else if tag == OID && Aton(arg.s).Some? then Some(OidTlv(Aton(arg.s).value))
    else None
  }

  /** The encodings by type: INTEGER (0x02), the unsigned types (0x41 to 0x43), OCTET STRING (0x04)
      and OBJECT IDENTIFIER (0x06) from its text; all else is refused. */
  lemma EncodingLaw(tag: Byte, arg: Arg)
    ensures match arg
            case Word(w) =>
              if tag == 0x02 then
                && Encoding(tag, arg) == Some(Tlv(0x02, IntegerContent(ToSigned(w))))
                && SignedValue(IntegerContent(ToSigned(w))) == ToSigned(w)
              else if 0x41 <= tag <= 0x43 then
                && Encoding(tag, arg) == Some(Tlv(tag, BigEndian(w, UnsignedOctets(w))))
                && UnsignedValue(BigEndian(w, UnsignedOctets(w))) == w
              else Encoding(tag, arg) == None
            case Chars(s) =>
              if tag == 0x04 then Encoding(tag, arg) == if |s| <= 65535 then Some(Tlv(0x04, s)) else None
              else if tag == 0x06 then
                (Encoding(tag, arg) == None <==> Aton(s) == None)
                && (Aton(s).Some? ==> Encoding(tag, arg) == Some(Tlv(0x06, OidContent(Aton(s).value))))
              else Encoding(tag, arg) == None
  {
    hide Header, BigEndian, Aton;
    if arg.Word? {
      IntegerRoundTrip(ToSigned(arg.word));
      UnsignedRoundTrip(arg.word);
    }
  }

  const MAX_SHORT := 0x7FFF

  /** A number stored in a C short. */
  function ToShort(n: nat): int {
    var u := n % 0x1_0000;
    if u <= MAX_SHORT then u else u - 0x1_0000
  }

  /** The buffer size chosen when an entry is built, which is kept in a short. */
  function Room(tag: Byte, arg: Arg): int {
    if tag == OCTET_STRING && arg.Chars? then ToShort(|arg.s| + 4)
    else if tag == OID then MAX_NR_SUBIDS * 5 + 4
    else 6
  }

  /** What becomes of a value. Spilled: the C code writes beyond the buffer, or has none, and
      nothing is defined any more. */
  datatype Fate = Written | Refused | Spilled

  predicate TooLongString(tag: Byte, arg: Arg) {
    tag == OCTET_STRING && arg.Chars? && |arg.s| > 0xFFFF
  }

  /** Writing a value into a buffer of `room` octets. A string that is too long is refused only
      after its type has been written. */
  function FateOf(tag: Byte, arg: Arg, room: int): Fate {
    match Encoding(tag, arg)
    case Some(bytes) => if |bytes| <= room then Written else Spilled
    case None => if TooLongString(tag, arg) && room < 1 then Spilled else Refused
  }

  /** What a refused value leaves in the buffer. */
  function AfterRefusal(tag: Byte, arg: Arg, bytes: seq<Byte>): seq<Byte> {
    if TooLongString(tag, arg) && bytes != [] then bytes[0 := OCTET_STRING] else bytes
  }

  /** The buffer allotted when an entry is built holds its first value, except that of a string
      of more than 32763 octets; such a string is refused only if it has more than 65535 octets
      and the short that keeps its buffer size comes out positive. */
  lemma BuildingFate(tag: Byte, arg: Arg)
    ensures !(tag == OCTET_STRING && arg.Chars?) ==>
              FateOf(tag, arg, Room(tag, arg)) == if Encoding(tag, arg).Some? then Written else Refused
    ensures tag == OCTET_STRING && arg.Chars? ==>
              FateOf(tag, arg, Room(tag, arg))
              == if |arg.s| <= 32763 then Written
                 else if |arg.s| > 65535 && 0 < (|arg.s| + 4) % 65536 < 32768 then Refused else Spilled
  {
    if arg.Chars? {
      if tag == OCTET_STRING && |arg.s| <= 0xFFFF {
        HeaderForms(tag, |arg.s|);
      } else if tag == OID && Aton(arg.s).Some? {
        var subids := Aton(arg.s).value;
        AtonLength(arg.s, 0);
        OidIsShort(subids);
        HeaderForms(tag, |OidContent(subids)|);
      }
    } else if tag == INTEGER {
      HeaderForms(tag, IntegerOctets(ToSigned(arg.word)));
    } else if IsUnsigned(tag) {
      HeaderForms(tag, UnsignedOctets(arg.word));
    }
  }

  lemma {:induction false} AtonLength(s: seq<Byte>, got: nat)
    requires got <= MAX_NR_SUBIDS && SubidsFrom(s, got).Some?
    ensures got + |SubidsFrom(s, got).value| <= MAX_NR_SUBIDS
    decreases |s|
  {
    if s != [] {
      AtonLength(s[1 + Strtoul(s[1..]).1..], got + 1);
    }
  }

  /** An entry's OID fits its recorded size exactly, and its value lies within a buffer of its
      own that has the recorded capacity. */
  ghost predicate ValidEntry(v: Value) {
    && ValidValue(v)
    && Exact(v.oid)
    && v.data.encodedLength <= v.data.maxLength == v.data.buffer.Length <= MAX_SHORT
  }

  function Oids(entries: seq<Value>): seq<Oid> {
    seq(|entries|, i requires 0 <= i < |entries| => entries[i].oid)
  }

  /** The first entry at `pos` or later with these subids. */
  function Locate(mib: seq<Oid>, target: Subids, pos: nat): (p: nat)
    ensures pos <= p && (pos <= |mib| ==> p <= |mib|)
    ensures forall i :: pos <= i < p && i < |mib| ==> mib[i].subids != target
    ensures p < |mib| ==> mib[p].subids == target
    decreases |mib| - pos
  {
    if pos >= |mib| || mib[pos].subids == target then pos else Locate(mib, target, pos + 1)
  }

  function Cell(prefix: Subids, column: UInt32, row: UInt32): Subids {
    prefix + [column, row]
  }

  lemma CellIs(prefix: Subids, column: UInt32, row: UInt32)
    ensures Cell(prefix, column, row) == prefix + [column] + [row]
  {
  }

  // ----- the element encoders, writing into the buffer of a value -----

  lemma PatchedFront(before: seq<Byte>, bytes: seq<Byte>)
    requires |bytes| <= |before|
    ensures Patched(before, 0, bytes)[..|bytes|] == bytes
  {
  }

  method EncodeElementInteger(d: Data, v: Int32) returns (r: Data)
    requires |IntegerTlv(v)| <= d.buffer.Length
    modifies d.buffer
    ensures r == d.(encodedLength := |IntegerTlv(v)|) && d.buffer[..r.encodedLength] == IntegerTlv(v)
  {
    hide BigEndian;
    ghost var before := d.buffer[..];
    var length := if v < -8388608 || v > 8388607 then 4
                  else if v < -32768 || v > 32767 then 3
                  else if v < -128 || v > 127 then 2 else 1;
    HeaderForms(INTEGER, length);
    d.buffer[0] := INTEGER;
    d.buffer[1] := length;
    assert d.buffer[..] == Patched(before, 0, Header(INTEGER, length));
    WriteOctets(d.buffer, 2, ToUnsigned(v), length);
    BigEndianUnsigned(v, length);
    PatchedTwice(before, 0, Header(INTEGER, length), BigEndian(v, length));
    PatchedFront(before, IntegerTlv(v));
    r := d.(encodedLength := 2 + length);
  }

  method EncodeElementUnsigned(d: Data, tag: Byte, u: UInt32) returns (r: Data)
    requires |UnsignedTlv(tag, u)| <= d.buffer.Length
    modifies d.buffer
    ensures r == d.(encodedLength := |UnsignedTlv(tag, u)|)
    ensures d.buffer[..r.encodedLength] == UnsignedTlv(tag, u)
  {
    hide BigEndian;
    ghost var before := d.buffer[..];
    var length := if u >= 0x100_0000 then 4 else if u >= 0x1_0000 then 3 else if u >= 0x100 then 2 else 1;
    HeaderForms(tag, length);
    d.buffer[0] := tag;
    d.buffer[1] := length;
    assert d.buffer[..] == Patched(before, 0, Header(tag, length));
    WriteOctets(d.buffer, 2, u, length);
    PatchedTwice(before, 0, Header(tag, length), BigEndian(u, length));
    PatchedFront(before, UnsignedTlv(tag, u));
    r := d.(encodedLength := 2 + length);
  }

  method EncodeElementString(d: Data, s: seq<Byte>) returns (r: Data)
    requires |StringTlv(s)| <= d.buffer.Length <= MAX_SHORT
    modifies d.buffer
    ensures r == d.(encodedLength := |StringTlv(s)|) && d.buffer[..r.encodedLength] == StringTlv(s)
  {
    hide Header;
    PatchedFront(d.buffer[..], StringTlv(s));
    var ok := EncodeString(d.buffer, 0, s);
    r := d.(encodedLength := StringLength(s));
  }

  method EncodeElementOid(d: Data, subids: Subids) returns (r: Data)
    requires 2 <= |subids| <= MAX_NR_SUBIDS && |OidTlv(subids)| <= d.buffer.Length
    modifies d.buffer
    ensures r == d.(encodedLength := |OidTlv(subids)|) && d.buffer[..r.encodedLength] == OidTlv(subids)
  {
    hide OidContent;
    PatchedFront(d.buffer[..], OidTlv(subids));
    EncodeOid(d.buffer, 0, subids);
    var length := EncodedOidLength(subids);
    r := d.(encodedLength := length);
  }

  /** The size of an OID on the wire, header included. */
  method EncodedOidLength(subids: Subids) returns (length: nat)
    requires 2 <= |subids| <= MAX_NR_SUBIDS
    ensures length == |OidTlv(subids)|
  {
    hide OidContent;
    length := OidContentLength(subids);
    OidIsShort(subids);
    HeaderForms(OID, length);
    length := DecodedLength(length);
  }

  /** The switch on the type of a value, for building and for updating. */
  method EncodeElement(d: Data, tag: Byte, arg: Arg) returns (fate: Fate, r: Data)
    requires Matches(tag, arg) && d.buffer.Length <= MAX_SHORT
    modifies d.buffer
    ensures fate == FateOf(tag, arg, d.buffer.Length)
    ensures fate.Written? ==> Encoding(tag, arg).Some? && |Encoding(tag, arg).value| <= d.buffer.Length
    ensures fate.Written? ==> r == d.(encodedLength := |Encoding(tag, arg).value|)
    ensures fate.Written? ==> d.buffer[..r.encodedLength] == Encoding(tag, arg).value
    ensures fate.Refused? ==> r == d && d.buffer[..] == AfterRefusal(tag, arg, old(d.buffer[..]))
    ensures fate.Spilled? ==> r == d && d.buffer[..] == old(d.buffer[..])
  {
    hide IntegerTlv, UnsignedTlv, StringTlv, OidTlv, Aton;
    fate, r := Refused, d;
    if tag == OCTET_STRING || tag == OID {
      if arg.Word? {
        return;
      }
    }
    if tag == INTEGER {
      var v := ToSigned(arg.word);
      if IntegerLength(v) > d.buffer.Length {
        return Spilled, d;
      }
      r := EncodeElementInteger(d, v);
      fate := Written;
    } else if tag == OCTET_STRING {
      if |arg.s| > 0xFFFF {
        if d.buffer.Length < 1 {
          return Spilled, d;
        }
        d.buffer[0] := OCTET_STRING;
        return;
      } else if StringLength(arg.s) > d.buffer.Length {
        return Spilled, d;
      }
      r := EncodeElementString(d, arg.s);
      fate := Written;
    } else if tag == OID {
      var subids := OidAton(arg.s);
      if subids.None? {
        return;
      }
      AtonShape(arg.s);
      var length := EncodedOidLength(subids.value);
      if length > d.buffer.Length {
        return Spilled, d;
      }
      r := EncodeElementOid(d, subids.value);
      fate := Written;
    } else if tag == COUNTER || tag == GAUGE || tag == TIME_TICKS {
      if UnsignedLength(tag, arg.word) > d.buffer.Length {
        return Spilled, d;
      }
      r := EncodeElementUnsigned(d, tag, arg.word);
      fate := Written;
    }
  }

  function UnsignedLength(tag: Byte, u: UInt32): (n: nat)
    ensures n == |UnsignedTlv(tag, u)|
  {
    HeaderForms(tag, UnsignedOctets(u));
    2 + UnsignedOctets(u)
  }

  class Mib {
    var entries: seq<Value>

    constructor ()
      ensures Valid() && entries == []
    {
      entries := [];
    }

    ghost predicate Valid()
      reads this
    {
      && |entries| <= MAX_NR_VALUES
      && (forall i :: 0 <= i < |entries| ==> ValidEntry(entries[i]))
      && (forall i, j :: 0 <= i < j < |entries| ==> entries[i].data.buffer != entries[j].data.buffer)
    }

    /** The table as it goes on the wire. */
    ghost function View(): (bs: seq<Binding>)
      requires Valid()
      reads this, Buffers(entries)
      ensures |bs| == |entries| && ValidBindings(bs)
    {
      Bindings(entries)
    }

    /** Appends an entry. A full table is left alone; any other failure leaves behind the entry
        begun. */
    method BuildEntry(prefix: Subids, column: Int32, row: Int32, tag: Byte, arg: Arg) returns (fate: Fate)
      requires Valid() && |prefix| <= MAX_NR_SUBIDS && Matches(tag, arg)
      modifies this
      ensures fate == if |old(entries)| == MAX_NR_VALUES || |prefix| + 2 > MAX_NR_SUBIDS then Refused
                      else FateOf(tag, arg, Room(tag, arg))
      ensures if |old(entries)| == MAX_NR_VALUES then entries == old(entries)
              else |entries| == |old(entries)| + 1 && entries[..|entries| - 1] == old(entries)
      ensures fate.Written? ==> Valid() && fresh(entries[|entries| - 1].data.buffer)
      ensures fate.Written? ==> var b := View()[|entries| - 1];
                     && View() == old(View()) + [b]
                     && b.oid.subids == Cell(prefix, ToUnsigned(column), ToUnsigned(row))
                     && b.value == Encoding(tag, arg).value
      ensures fate.Written? ==> entries[|entries| - 1].data.maxLength == Room(tag, arg)
    {
      hide OidTlv, Encoding, Room, Matches, Cell, FateOf, Exact;
      if |entries| >= MAX_NR_VALUES {
        return Refused;
      }
      var last := |entries|;
      var none := new Byte[0];
      entries := entries + [Value(Oid(prefix, 0), Data(none, 0, 0))];
      var subids := prefix;
      if |subids| >= MAX_NR_SUBIDS {
        return Refused;
      }
      subids := subids + [ToUnsigned(column)];
      entries := entries[last := entries[last].(oid := Oid(subids, 0))];
      if |subids| >= MAX_NR_SUBIDS {
        return Refused;
      }
      subids := subids + [ToUnsigned(row)];
      var length := EncodedOidLength(subids);
      entries := entries[last := entries[last].(oid := Oid(subids, length))];
      assert Exact(entries[last].oid) by { RecordedExactly(subids, length); }
      fate := FillLast(tag, arg);
      if fate.Written? {
        CellIs(prefix, ToUnsigned(column), ToUnsigned(row));
        assert View()[last] == BindingOf(entries[last]);
        forall i | 0 <= i < last ensures View()[i] == old(View())[i] {
          assert entries[i] == old(entries)[i] && ValidEntry(entries[i]);
        }
      }
    }

    /** The last part of BuildEntry: a buffer and a first value for the entry begun. */
    method FillLast(tag: Byte, arg: Arg) returns (fate: Fate)
      requires 0 < |entries| <= MAX_NR_VALUES && Matches(tag, arg)
      requires var last := |entries| - 1;
               && entries[last].oid.Valid() && Exact(entries[last].oid)
               && (forall i :: 0 <= i < last ==> ValidEntry(entries[i]))
               && (forall i, j :: 0 <= i < j < last ==> entries[i].data.buffer != entries[j].data.buffer)
      modifies this
      ensures fate == FateOf(tag, arg, Room(tag, arg))
      ensures var last := |old(entries)| - 1;
              && |entries| == last + 1 && entries[..last] == old(entries)[..last]
              && entries[last].oid == old(entries)[last].oid
              && (fate.Written? ==>
                    && Valid() && fresh(entries[last].data.buffer)
                    && entries[last].data.maxLength == Room(tag, arg)
                    && BindingOf(entries[last]).value == Encoding(tag, arg).value)
    {
      hide OidTlv, Encoding, Room, Matches, FateOf, Exact;
      var last := |entries| - 1;
      var room := Room(tag, arg);
      RoomIsShort(tag, arg);
      if room < 0 {
        return Spilled;
      }
      var buffer := new Byte[room](_ => 0);
      var data;
      fate, data := EncodeElement(Data(buffer, room, 0), tag, arg);
      entries := entries[last := entries[last].(data := data)];
    }

    /** The search of UpdateEntry, moving the cursor. */
    method Advance(subids: Subids, pos: nat) returns (next: nat)
      ensures next == Locate(Oids(entries), subids, pos)
    {
      ghost var mib := Oids(entries);
      next := pos;
      while next < |entries|
        invariant pos <= next && (next <= |entries| || next == pos)
        invariant Locate(mib, subids, next) == Locate(mib, subids, pos)
      {
        if entries[next].oid.subids == subids {
          break;
        }
        next := next + 1;
      }
    }

    /** Rewrites the value of the first entry at `pos` or later that has the given OID. The
        buffer allotted when the entry was built has to hold the new value; the C code does not
        check that. */
    method UpdateEntry(prefix: Subids, column: Int32, row: Int32, pos: nat, tag: Byte, arg: Arg)
      returns (fate: Fate, next: nat)
      requires Valid() && |prefix| <= MAX_NR_SUBIDS && Matches(tag, arg)
      modifies this, Buffers(entries)
      ensures Valid() && Oids(entries) == old(Oids(entries))
      ensures var k := Locate(old(Oids(entries)), Cell(prefix, ToUnsigned(column), ToUnsigned(row)), pos);
              && next == (if |prefix| + 2 <= MAX_NR_SUBIDS then k else pos)
              && fate == (if |prefix| + 2 > MAX_NR_SUBIDS || k >= |entries| then Refused
                          else FateOf(tag, arg, old(entries)[k].data.maxLength))
              && |View()| == |old(View())|
              && (fate.Written? ==>
                    View() == old(View())[k := Binding(old(entries)[k].oid, Encoding(tag, arg).value)])
              && (fate.Refused? ==>
                    View() == if |prefix| + 2 > MAX_NR_SUBIDS || k >= |entries| then old(View())
                              else old(View())[k := Binding(old(entries)[k].oid,
                                                            AfterRefusal(tag, arg, old(View())[k].value))])
      ensures forall i :: 0 <= i < |entries| ==>
                entries[i].data.buffer == old(entries)[i].data.buffer
                && entries[i].data.maxLength == old(entries)[i].data.maxLength
    {
      hide OidTlv, Encoding, Locate, FateOf, AfterRefusal, ValidEntry;
      fate, next := Refused, pos;
      var subids := prefix;
      if |subids| >= MAX_NR_SUBIDS {
        return;
      }
      subids := subids + [ToUnsigned(column)];
      if |subids| >= MAX_NR_SUBIDS {
        return;
      }
      subids := subids + [ToUnsigned(row)];
      ghost var target := Cell(prefix, ToUnsigned(column), ToUnsigned(row));
      assert subids == target;
      next := Advance(subids, pos);
      if next >= |entries| {
        return;
      }
      fate := Rewrite(next, tag, arg);
    }

    /** The last part of UpdateEntry: a new value for entry `k`. */
    method Rewrite(k: nat, tag: Byte, arg: Arg) returns (fate: Fate)
      requires Valid() && k < |entries| && Matches(tag, arg)
      modifies this, Buffers(entries)
      ensures Valid() && Oids(entries) == old(Oids(entries)) && |entries| == |old(entries)|
      ensures fate == FateOf(tag, arg, old(entries)[k].data.maxLength)
      ensures fate.Written? ==>
                View() == old(View())[k := Binding(old(entries)[k].oid, Encoding(tag, arg).value)]
      ensures fate.Refused? ==>
                View() == old(View())[k := Binding(old(entries)[k].oid, AfterRefusal(tag, arg, old(View())[k].value))]
      ensures forall i :: 0 <= i < |entries| ==>
                entries[i].data.buffer == old(entries)[i].data.buffer
                && entries[i].data.maxLength == old(entries)[i].data.maxLength
    {
      hide OidTlv, Encoding, FateOf, AfterRefusal, Exact;
      assert entries[k].data.buffer in Buffers(entries);
      ghost var before, n := entries[k].data.buffer[..], entries[k].data.encodedLength;
      var data;
      fate, data := EncodeElement(entries[k].data, tag, arg);
      entries := entries[k := entries[k].(data := data)];
      assert Oids(entries) == old(Oids(entries));
      assert View()[k] == BindingOf(entries[k]);
      if fate.Refused? {
        RefusalInFront(tag, arg, before, n);
      }
    }

    /** The first entry that is `oid` or extends it, or the length of the table. */
    method MibFind(oid: Oid) returns (pos: nat)
      ensures pos == Find(Oids(entries), oid.subids)
    {
      ghost var mib := Oids(entries);
      pos := 0;
      while pos < |entries|
        invariant 0 <= pos <= |entries|
        invariant FindFrom(mib, oid.subids, pos) == Find(mib, oid.subids)
      {
        var subids := entries[pos].oid.subids;
        if |subids| >= |oid.subids| && subids[..|oid.subids|] == oid.subids {
          break;
        }
        pos := pos + 1;
      }
    }

    /** The first entry that `oid_cmp` puts after `oid`, or the length of the table. */
    method MibFindNext(oid: Oid) returns (pos: nat)
      ensures pos == FindNext(Oids(entries), oid.subids)
    {
      ghost var mib := Oids(entries);
      pos := 0;
      while pos < |entries|
        invariant 0 <= pos <= |entries|
        invariant FindNextFrom(mib, oid.subids, pos) == FindNext(mib, oid.subids)
      {
        var order := OidCmp(entries[pos].oid.subids, oid.subids);
        assert mib[pos].subids == entries[pos].oid.subids;
        if order > 0 {
          break;
        }
        pos := pos + 1;
      }
    }
  }

  lemma RecordedExactly(subids: Subids, length: nat)
    requires 2 <= |subids| <= MAX_NR_SUBIDS && length == |OidTlv(subids)|
    ensures Exact(Oid(subids, length))
  {
  }

  lemma RoomIsShort(tag: Byte, arg: Arg)
    ensures Room(tag, arg) <= MAX_SHORT
    ensures Room(tag, arg) < 0 ==> FateOf(tag, arg, Room(tag, arg)) == Spilled
  {
    BuildingFate(tag, arg);
  }

  lemma RefusalInFront(tag: Byte, arg: Arg, bytes: seq<Byte>, n: nat)
    requires n <= |bytes|
    ensures |AfterRefusal(tag, arg, bytes)| == |bytes|
    ensures AfterRefusal(tag, arg, bytes)[..n] == AfterRefusal(tag, arg, bytes[..n])
  {
  }

  lemma AtonShape(s: seq<Byte>)
    requires Aton(s).Some?
    ensures 2 <= |Aton(s).value| <= MAX_NR_SUBIDS
  {
    AtonLength(s, 0);
  }
}
