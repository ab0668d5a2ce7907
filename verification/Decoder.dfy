/** The request decoder: a cursor over the packet, filling the request field by field. Where it
    would read beyond the array that holds the packet, the methods stop with Overrun. */
module Decoder {
  import opened Types
  import opened Machine
  import opened Ber
  import opened OidCodec
  import opened Messages

  /** A peer and its packet buffer; the first `size` octets are in use. */
  class Client {
    const packet: array<Byte>
    var size: nat

    constructor ()
      ensures Valid() && fresh(packet) && size == 0
    {
      packet := new Byte[MAX_PACKET_SIZE](_ => 0);
      size := 0;
    }

    ghost predicate Valid()
      reads this
    {
      packet.Length == MAX_PACKET_SIZE && size <= MAX_PACKET_SIZE
    }

    ghost function Packet(): seq<Byte>
      requires Valid()
      reads this, packet
    {
      packet[..size]
    }

    /** What follows the packet in its array. */
    ghost function Behind(): seq<Byte>
      requires Valid()
      reads this, packet
    {
      packet[size..]
    }
  }

  class Request {
    var community: seq<Byte>
    var pdu: Byte
    var version: Int32
    var id: Int32
    var nonRepeaters: Int32
    var maxRepetitions: Int32
    var oidList: seq<Oid>

    constructor ()
    {
      community, pdu, version, id, nonRepeaters, maxRepetitions, oidList := [], 0, 0, 0, 0, 0, [];
    }

    ghost function View(): Message
      reads this
    {
      Message(version, community, pdu, id, nonRepeaters, maxRepetitions, oidList)
    }
  }

  method DecodeTypeLength(packet: array<Byte>, size: nat, pos: nat) returns (r: Parse<Head>)
    requires size <= packet.Length
    ensures r == HeadAt(packet[..size], pos)
  {
    if pos >= size || !SupportedTag(packet[pos]) {
      return Malformed;
    }
    var tag, at := packet[pos], pos + 1;
    if at >= size {
      return Malformed;
    }
    if packet[at] < 0x80 {
      return Parsed(Head(tag, packet[at], at + 1));
    }
    var lengthOfLength := packet[at] - 0x80;
    if lengthOfLength > 2 {
      return Malformed;
    }
    at := at + 1;
    ghost var p := packet[..size];
    var length: nat, i := 0, 0;
    while i < lengthOfLength
      invariant 0 <= i <= lengthOfLength && at == pos + 2 + i <= size
      invariant length == ShortLength(p[pos + 2..at])
    {
      if at >= size {
        return Malformed;
      }
      assert p[pos + 2..at + 1] == p[pos + 2..at] + [packet[at]];
      length, at, i := length * 0x100 + packet[at], at + 1, i + 1;
    }
    return Parsed(Head(tag, length, at));
  }

  method DecodeInteger(packet: array<Byte>, size: nat, pos: nat, length: nat)
    returns (r: Parse<Int32>, next: nat)
    requires size <= packet.Length && length > 0
    ensures var c := ContentAt(packet[..size], packet[size..], pos, length);
            r == if c.Parsed? then Parsed(ToSigned(Wrap(SignedValue(c.value)))) else c.PropagateFailure()
    ensures r.Parsed? ==> next == pos + length
  {
    next := pos;
    if !GuardPasses(pos, size, length) {
      return Malformed, pos;
    } else if pos + length > packet.Length {
      return Overrun, pos;
    }
    ghost var c := packet[pos..pos + length];
    assert packet[..size] + packet[size..] == packet[..];
    ghost var sign: int := if c[0] >= 0x80 then -1 else 0;
    var value: UInt32 := if packet[pos] >= 0x80 then 0xFFFF_FFFF else 0;
    var i := 0;
    assert c[..0] == [];
    while i < length
      invariant 0 <= i <= length && next == pos + i
      invariant value == Wrap(Accumulate(sign, c[..i]))
    {
      assert c[..i + 1][..i] == c[..i] && c[i] == packet[next];
      WrapShift(Accumulate(sign, c[..i]), 0x100, packet[next]);
      value := Wrap(value * 0x100 + packet[next]);
      next, i := next + 1, i + 1;
    }
    assert c[..length] == c;
    r := Parsed(ToSigned(value));
  }

  method DecodeUnsigned(packet: array<Byte>, size: nat, pos: nat, length: nat)
    returns (r: Parse<UInt32>, next: nat)
    requires size <= packet.Length
    ensures var c := ContentAt(packet[..size], packet[size..], pos, length);
            r == if c.Parsed? then Parsed(Wrap(UnsignedValue(c.value))) else c.PropagateFailure()
    ensures r.Parsed? ==> next == pos + length
  {
    next := pos;
    if !GuardPasses(pos, size, length) {
      return Malformed, pos;
    } else if pos + length > packet.Length {
      return Overrun, pos;
    }
    ghost var c := packet[pos..pos + length];
    assert packet[..size] + packet[size..] == packet[..];
    var value: UInt32, i := 0, 0;
    assert c[..0] == [];
    while i < length
      invariant 0 <= i <= length && next == pos + i
      invariant value == Wrap(UnsignedValue(c[..i]))
    {
      assert c[..i + 1][..i] == c[..i] && c[i] == packet[next];
      WrapShift(UnsignedValue(c[..i]), 0x100, packet[next]);
      value := Wrap(value * 0x100 + packet[next]);
      next, i := next + 1, i + 1;
    }
    assert c[..length] == c;
    r := Parsed(value);
  }

  lemma RoomForString(pos: nat, size: nat, length: nat)
    requires pos <= size <= MAX_PACKET_SIZE && length < MAX_STRING_SIZE && GuardPasses(pos, size, length)
    ensures pos + length <= MAX_PACKET_SIZE
  {
  }

  /** Copies up to the first NUL, as printing with %.*s does; the caller keeps `length` below
      the size of the destination, so that the array always has that many octets left. */
  method DecodeString(packet: array<Byte>, size: nat, pos: nat, length: nat)
    returns (r: Parse<seq<Byte>>, next: nat)
    requires pos <= size <= packet.Length == MAX_PACKET_SIZE && length < MAX_STRING_SIZE
    ensures var c := ContentAt(packet[..size], packet[size..], pos, length);
            r == if c.Parsed? then Parsed(CString(c.value)) else Malformed
    ensures ContentAt(packet[..size], packet[size..], pos, length) != Overrun
    ensures r.Parsed? ==> next == pos + length
  {
    hide GuardPasses;
    if !GuardPasses(pos, size, length) {
      return Malformed, pos;
    }
    RoomForString(pos, size, length);
    ghost var c := packet[pos..pos + length];
    assert packet[..size] + packet[size..] == packet[..];
    assert c[0..] == c;
    var value, i := [], 0;
    while i < length && packet[pos + i] != 0
      invariant 0 <= i <= length
      invariant CString(c) == value + CString(c[i..])
    {
      assert c[i..][1..] == c[i + 1..];
      value, i := value + [packet[pos + i]], i + 1;
    }
    assert CString(c[i..]) == [] && value + [] == value;
    return Parsed(value), pos + length;
  }

  /** Moves past a value without reading it. */
  method DecodeVoid(size: nat, pos: nat, length: nat) returns (r: Parse<()>, next: nat)
    ensures r == if GuardPasses(pos, size, length) then Parsed(()) else Malformed
    ensures r.Parsed? ==> next == pos + length
  {
    if !GuardPasses(pos, size, length) {
      return Malformed, pos;
    }
    return Parsed(()), pos + length;
  }

  /** Scanning past octets with the continuation bit leaves the end of the group where it is. */
  lemma {:induction false} GroupLengthSkips(c: seq<Byte>, j: nat)
    requires j <= |c| && forall i :: 0 <= i < j ==> c[i] >= 0x80
    ensures GroupLength(c) == match GroupLength(c[j..])
                              case None => None
                              case Some(k) => Some(k + j)
  {
    if j == 0 {
      assert c[0..] == c;
    } else {
      GroupLengthSkips(c[1..], j - 1);
      assert c[1..][j - 1..] == c[j..];
    }
  }

  lemma GroupEnds(c: seq<Byte>, j: nat)
    requires j < |c| && forall i :: 0 <= i < j ==> c[i] >= 0x80
    ensures c[j] < 0x80 ==> GroupLength(c) == Some(j + 1)
    ensures c[j] >= 0x80 && j + 1 == |c| ==> GroupLength(c) == None
  {
    GroupLengthSkips(c, j);
    if j + 1 == |c| {
      assert c[j..] == [c[j]] && c[j..][1..] == [];
    }
  }

  /** The octets of `s` from `pos` on, `length` of them if there are so many. */
  function Available(s: seq<Byte>, pos: nat, length: nat): seq<Byte>
    requires pos <= |s|
  {
    s[pos..if pos + length <= |s| then pos + length else |s|]
  }

  /** One subidentifier of at most `length` octets; the inner loop of the OID decoder. */
  method DecodeSubid(packet: array<Byte>, pos: nat, length: nat) returns (r: Parse<UInt32>, next: nat)
    requires 0 < length && pos <= packet.Length
    ensures var c := Available(packet[..], pos, length);
            r == match GroupLength(c)
                 case None => if pos + length > packet.Length then Overrun else Malformed
                 case Some(k) => Parsed(Wrap(GroupValue(c[..k])))
    ensures r.Parsed? ==> next == pos + GroupLength(Available(packet[..], pos, length)).value
  {
    hide Wrap, GroupValue, GroupLength;
    ghost var c := Available(packet[..], pos, length);
    var value: UInt32 := 0;
    var left := length;
    next := pos;
    NoOctets(c);
    while left > 0
      invariant 0 < left <= length && next == pos + (length - left) <= packet.Length
      invariant forall i :: 0 <= i < length - left ==> c[i] >= 0x80
      invariant value == Wrap(GroupValue(c[..length - left]))
    {
      if next >= packet.Length {
        NoGroupEnds(c);
        return Overrun, next;
      }
      ghost var j := length - left;
      assert c[j] == packet[next];
      OneMoreOctet(c, j, value);
      GroupEnds(c, j);
      left := left - 1;
      value := Wrap(value * 0x80 + packet[next] % 0x80);
      if packet[next] >= 0x80 {
        if left == 0 {
          return Malformed, next;
        }
        next := next + 1;
      } else {
        next := next + 1;
        break;
      }
    }
    r := Parsed(value);
  }

  lemma NoOctets(c: seq<Byte>)
    ensures Wrap(GroupValue(c[..0])) == 0
  {
  }

  lemma OneMoreOctet(c: seq<Byte>, j: nat, value: UInt32)
    requires j < |c| && value == Wrap(GroupValue(c[..j]))
    ensures Wrap(value * 0x80 + c[j] % 0x80) == Wrap(GroupValue(c[..j + 1]))
  {
    hide Wrap;
    assert c[..j + 1][..j] == c[..j];
    WrapShift(GroupValue(c[..j]), 0x80, c[j] % 0x80);
  }

  lemma NoGroupEnds(c: seq<Byte>)
    requires forall i :: 0 <= i < |c| ==> c[i] >= 0x80
    ensures GroupLength(c) == None
  {
    GroupLengthSkips(c, |c|);
    assert c[|c|..] == [];
  }

  // ----- the subidentifiers of contents that may be cut off -----

  /** What the outer loop makes of the contents `c` when `got` subidentifiers are stored; `cut`
      says that the array ends before the announced contents do. */
  function SubidsIn(c: seq<Byte>, cut: bool, got: nat): Parse<seq<UInt32>>
    decreases |c|
  {
    if c == [] && !cut then Parsed([])
    else if got >= MAX_NR_SUBIDS then Malformed
    else
      match GroupLength(c)
      case None => if cut then Overrun else Malformed
      case Some(k) => PrependSubids([Wrap(GroupValue(c[..k]))], SubidsIn(c[k..], cut, got + 1))
  }

  function PrependSubids(front: seq<UInt32>, rest: Parse<seq<UInt32>>): Parse<seq<UInt32>> {
    if rest.Parsed? then Parsed(front + rest.value) else rest
  }

  lemma PrependSubidsTwice(a: seq<UInt32>, b: seq<UInt32>, rest: Parse<seq<UInt32>>)
    ensures PrependSubids(a, PrependSubids(b, rest)) == PrependSubids(a + b, rest)
  {
    if rest.Parsed? {
      assert a + (b + rest.value) == (a + b) + rest.value;
    }
  }

  /** Contents that are all there give the subidentifiers of OidCodec. */
  lemma {:induction false} SubidsWhole(c: seq<Byte>, got: nat)
    ensures SubidsIn(c, false, got) == match SubidsOf(c, got)
                                       case None => Malformed
                                       case Some(s) => Parsed(s)
    decreases |c|
  {
    hide GroupValue, Wrap;
    if c != [] && got < MAX_NR_SUBIDS && GroupLength(c).Some? {
      SubidsWhole(c[GroupLength(c).value..], got + 1);
    }
  }

  /** Contents that are cut off are never read to their end: either there are too many
      subidentifiers or the array runs out. */
  lemma {:induction false} SubidsCut(c: seq<Byte>, got: nat)
    requires got <= MAX_NR_SUBIDS
    ensures SubidsIn(c, true, got) == if got + Ends(c) >= MAX_NR_SUBIDS then Malformed else Overrun
    decreases |c|
  {
    hide GroupValue, Wrap, Ends;
    EndsCountGroups(c);
    if got < MAX_NR_SUBIDS && GroupLength(c).Some? {
      SubidsCut(c[GroupLength(c).value..], got + 1);
    }
  }

  lemma {:induction false} EndsCountGroups(c: seq<Byte>)
    ensures match GroupLength(c)
            case None => Ends(c) == 0
            case Some(k) => Ends(c) == 1 + Ends(c[k..])
  {
    if c != [] && c[0] >= 0x80 {
      EndsCountGroups(c[1..]);
      if GroupLength(c[1..]).Some? {
        var k := GroupLength(c[1..]).value;
        assert c[1..][k..] == c[k + 1..];
      }
    }
  }

  lemma SubidsStep(c: seq<Byte>, cut: bool, got: nat)
    requires (c != [] || cut) && got < MAX_NR_SUBIDS
    ensures SubidsIn(c, cut, got)
            == match GroupLength(c)
               case None => if cut then Overrun else Malformed
               case Some(k) => PrependSubids([Wrap(GroupValue(c[..k]))], SubidsIn(c[k..], cut, got + 1))
  {
    hide GroupLength, GroupValue, Wrap, PrependSubids;
  }

  lemma SubidsEnd(subids: seq<UInt32>, c: seq<Byte>, cut: bool)
    ensures c == [] && !cut ==> PrependSubids(subids, SubidsIn(c, cut, |subids|)) == Parsed(subids)
    ensures (c != [] || cut) && |subids| >= MAX_NR_SUBIDS ==>
              PrependSubids(subids, SubidsIn(c, cut, |subids|)) == Malformed
  {
    assert subids + [] == subids;
  }

  lemma PrependFailure(subids: seq<UInt32>, rest: Parse<seq<UInt32>>)
    ensures !rest.Parsed? ==> PrependSubids(subids, rest) == rest
  {
  }

  lemma AvailableLater(s: seq<Byte>, pos: nat, length: nat, k: nat)
    requires pos <= |s| && k <= |Available(s, pos, length)|
    ensures k <= length && pos + k <= |s|
    ensures Available(s, pos, length)[k..] == Available(s, pos + k, length - k)
  {
  }

  /** The subidentifiers after the first octet, appended to `front`; the outer loop of the
      OID decoder. */
  method DecodeSubids(packet: array<Byte>, pos: nat, length: nat, front: seq<UInt32>)
    returns (r: Parse<seq<UInt32>>, next: nat)
    requires pos <= packet.Length && |front| <= MAX_NR_SUBIDS
    ensures r == PrependSubids(front, SubidsIn(Available(packet[..], pos, length),
                                               pos + length > packet.Length, |front|))
    ensures r.Parsed? ==> next == pos + length
  {
    hide GroupLength, GroupValue, Wrap, SubidsIn, PrependSubids, Available;
    ghost var s, cut := packet[..], pos + length > packet.Length;
    var subids, left := front, length;
    next := pos;
    while left > 0
      invariant 0 <= left <= length && next == pos + (length - left) <= packet.Length
      invariant |subids| <= MAX_NR_SUBIDS
      invariant PrependSubids(front, SubidsIn(Available(s, pos, length), cut, |front|))
                == PrependSubids(subids, SubidsIn(Available(s, next, left), cut, |subids|))
      decreases left
    {
      ghost var rest := Available(s, next, left);
      AvailableOctets(s, next, left);
      if |subids| >= MAX_NR_SUBIDS {
        SubidsEnd(subids, rest, cut);
        return Malformed, next;
      }
      SubidsStep(rest, cut, |subids|);
      var subid, after := DecodeSubid(packet, next, left);
      if !subid.Parsed? {
        PrependFailure(subids, SubidsIn(rest, cut, |subids|));
        return subid.PropagateFailure(), next;
      }
      ghost var k := after - next;
      AvailableLater(s, next, left, k);
      PrependSubidsTwice(subids, [subid.value], SubidsIn(rest[k..], cut, |subids| + 1));
      left := left - (after - next);
      subids, next := subids + [subid.value], after;
    }
    AvailableOctets(s, next, 0);
    SubidsEnd(subids, [], false);
    r := Parsed(subids);
  }

  lemma AvailableOctets(s: seq<Byte>, pos: nat, length: nat)
    requires pos <= |s|
    ensures pos + length <= |s| ==> |Available(s, pos, length)| == length
    ensures length == 0 ==> Available(s, pos, length) == []
  {
  }

  method DecodeOid(packet: array<Byte>, size: nat, pos: nat, length: nat)
    returns (r: Parse<Oid>, next: nat)
    requires pos <= size <= packet.Length && length <= 0xFFFF
    ensures r == OidContentAt(packet[..size], packet[size..], pos, length)
    ensures r.Parsed? ==> next == pos + length
  {
    hide SubidsOf, SubidsIn, GuardPasses, Ends;
    ghost var s := packet[..];
    assert packet[..size] + packet[size..] == s;
    if !GuardPasses(pos, size, length) {
      return Malformed, pos;
    }
    var encodedLength := length;
    if length > 0xFF {
      encodedLength := encodedLength + 4;
    } else if length > 0x7F {
      encodedLength := encodedLength + 3;
    } else {
      encodedLength := encodedLength + 2;
    }
    if length == 0 {
      return Malformed, pos;
    } else if pos >= packet.Length {
      return Overrun, pos;
    } else if packet[pos] >= 0x80 {
      return Malformed, pos;
    }
    ghost var rest := Available(s, pos + 1, length - 1);
    var pair := [packet[pos] / 40, packet[pos] % 40];
    var subids;
    subids, next := DecodeSubids(packet, pos + 1, length - 1, pair);
    if pos + length > packet.Length {
      SubidsCut(rest, 2);
      assert s[pos..][1..] == rest;
    } else {
      SubidsWhole(rest, 2);
      assert s[pos..pos + length][1..] == rest;
    }
    if !subids.Parsed? {
      return subids.PropagateFailure(), next;
    }
    r := Parsed(Oid(subids.value, encodedLength));
  }

  /** An integer field of at least one octet, as the decoder reads it three times over. */
  method DecodeIntegerField(packet: array<Byte>, size: nat, pos: nat) returns (r: Parse<(Int32, nat)>)
    requires size <= packet.Length
    ensures r == IntegerAt(packet[..size], packet[size..], pos)
  {
    var head := DecodeTypeLength(packet, size, pos);
    if !head.Parsed? {
      return head.PropagateFailure();
    } else if head.value.tag != INTEGER || head.value.length < 1 {
      return Malformed;
    }
    var value, next := DecodeInteger(packet, size, head.value.next, head.value.length);
    if !value.Parsed? {
      return value.PropagateFailure();
    }
    return Parsed((value.value, next));
  }

  method DecodeBinding(packet: array<Byte>, size: nat, pos: nat) returns (r: Parse<(Oid, nat)>)
    requires size <= packet.Length
    ensures r == BindingAt(packet[..size], packet[size..], pos)
  {
    hide HeadAt, OidOf, SupportedTag, GuardPasses, GivesUp;
    var head := DecodeTypeLength(packet, size, pos);
    if !head.Parsed? {
      return head.PropagateFailure();
    } else if head.value.tag != SEQUENCE || head.value.length < 1 {
      return Malformed;
    }
    head := DecodeTypeLength(packet, size, head.value.next);
    if !head.Parsed? {
      return head.PropagateFailure();
    } else if head.value.tag != OID || head.value.length < 1 {
      return Malformed;
    }
    var oid, next := DecodeOid(packet, size, head.value.next, head.value.length);
    if !oid.Parsed? {
      return oid.PropagateFailure();
    }
    head := DecodeTypeLength(packet, size, next);
    if !head.Parsed? {
      return head.PropagateFailure();
    } else if (head.value.tag == NULL && head.value.length != 0)
              || (head.value.tag != NULL && head.value.length == 0) {
      return Malformed;
    }
    var skipped;
    skipped, next := DecodeVoid(size, head.value.next, head.value.length);
    if !skipped.Parsed? {
      return skipped.PropagateFailure();
    }
    return Parsed((oid.value, next));
  }

  /** Reads the whole packet into `request`; what a failed call leaves there is not used. */
  method DecodeRequest(request: Request, client: Client) returns (r: Parse<()>)
    requires client.Valid()
    modifies request
    ensures match ParseRequest(client.Packet(), client.Behind())
            case Parsed(m) => r == Parsed(()) && request.View() == m
            case Malformed => r == Malformed
            case Overrun => r == Overrun
  {
    hide HeadAt, ContentAt, PduAt, SignedValue, CString, SupportedTag;
    var packet, size := client.packet, client.size;
    ghost var p, behind := client.Packet(), client.Behind();
    var head := DecodeTypeLength(packet, size, 0);
    if !head.Parsed? {
      return head.PropagateFailure();
    } else if head.value.tag != SEQUENCE || head.value.length != size - head.value.next {
      return Malformed;
    }
    var pos := head.value.next;

    head := DecodeTypeLength(packet, size, pos);
    if !head.Parsed? {
      return head.PropagateFailure();
    } else if head.value.tag != INTEGER || head.value.length != 1 {
      return Malformed;
    }
    var version, afterVersion := DecodeInteger(packet, size, head.value.next, head.value.length);
    if !version.Parsed? {
      return version.PropagateFailure();
    }
    request.version := version.value;
    if request.version != SNMP_VERSION_1 && request.version != SNMP_VERSION_2C {
      return Malformed;
    }
    assert VersionAt(p, behind, pos) == Parsed((request.version, afterVersion));

    head := DecodeTypeLength(packet, size, afterVersion);
    if !head.Parsed? {
      return head.PropagateFailure();
    } else if head.value.tag != OCTET_STRING || head.value.length >= MAX_STRING_SIZE {
      return Malformed;
    }
    var community, afterCommunity := DecodeString(packet, size, head.value.next, head.value.length);
    if !community.Parsed? {
      return community.PropagateFailure();
    }
    request.community := community.value;
    if |request.community| < 1 {
      return Malformed;
    }
    assert CommunityAt(p, behind, afterVersion) == Parsed((request.community, afterCommunity));
    r := DecodePdu(request, client, afterCommunity);
  }

  /** The rest of DecodeRequest, from the PDU on. */
  method DecodePdu(request: Request, client: Client, start: nat) returns (r: Parse<()>)
    requires client.Valid()
    modifies request
    ensures match PduAt(client.Packet(), client.Behind(), start, old(request.version), old(request.community))
            case Parsed(m) => r == Parsed(()) && request.View() == m.0
            case Malformed => r == Malformed
            case Overrun => r == Overrun
  {
    hide HeadAt, IntegerAt, BindingAt, Decoded, SupportedTag;
    var packet, size := client.packet, client.size;
    ghost var p, behind := client.Packet(), client.Behind();
    var head := DecodeTypeLength(packet, size, start);
    if !head.Parsed? {
      return head.PropagateFailure();
    } else if head.value.length != size - head.value.next {
      return Malformed;
    }
    request.pdu := head.value.tag;

    var field := DecodeIntegerField(packet, size, head.value.next);
    if !field.Parsed? {
      return field.PropagateFailure();
    }
    request.id := field.value.0;
    field := DecodeIntegerField(packet, size, field.value.1);
    if !field.Parsed? {
      return field.PropagateFailure();
    }
    request.nonRepeaters := field.value.0;
    field := DecodeIntegerField(packet, size, field.value.1);
    if !field.Parsed? {
      return field.PropagateFailure();
    }
    request.maxRepetitions := field.value.0;

    head := DecodeTypeLength(packet, size, field.value.1);
    if !head.Parsed? {
      return head.PropagateFailure();
    } else if head.value.tag != SEQUENCE || head.value.length != size - head.value.next {
      return Malformed;
    }
    var pos := head.value.next;
    ghost var list := pos;
    ghost var fields := request.View();
    request.oidList := [];
    PrependNoOids(BindingsAt(p, behind, list, 0));
    while pos < size
      invariant list <= pos && |request.oidList| <= MAX_NR_OIDS
      invariant request.View() == fields.(oids := request.oidList)
      invariant BindingsAt(p, behind, list, 0)
                == PrependOids(request.oidList, BindingsAt(p, behind, pos, |request.oidList|))
      decreases size - pos
    {
      if |request.oidList| >= MAX_NR_OIDS {
        return Malformed;
      }
      var binding := DecodeBinding(packet, size, pos);
      if !binding.Parsed? {
        return binding.PropagateFailure();
      }
      PrependOidsTwice(request.oidList, [binding.value.0],
                       BindingsAt(p, behind, binding.value.1, |request.oidList| + 1));
      request.oidList := request.oidList + [binding.value.0];
      pos := binding.value.1;
    }
    r := Parsed(());
  }

  function PrependOids(front: seq<Oid>, rest: Parse<(seq<Oid>, nat)>): Parse<(seq<Oid>, nat)> {
    if rest.Parsed? then Parsed((front + rest.value.0, rest.value.1)) else rest
  }

  lemma PrependNoOids(rest: Parse<(seq<Oid>, nat)>)
    ensures PrependOids([], rest) == rest
  {
    if rest.Parsed? {
      assert [] + rest.value.0 == rest.value.0;
    }
  }

  lemma PrependOidsTwice(a: seq<Oid>, b: seq<Oid>, rest: Parse<(seq<Oid>, nat)>)
    ensures PrependOids(a, PrependOids(b, rest)) == PrependOids(a + b, rest)
  {
    if rest.Parsed? {
      assert a + (b + rest.value.0) == (a + b) + rest.value.0;
    }
  }

  /** 1 for a whole message, 0 for one to wait for, -1 for one to drop. */
  function Completeness(p: seq<Byte>): int {
    if |p| < 25 then 0
    else
      match HeadAt(p, 0)
      case Malformed => -1
      case Overrun => -1
      case Parsed(h) =>
        if h.tag != SEQUENCE || h.length < 1 || h.length > |p| - h.next then -1
        else if |p| - h.next == h.length then 1 else 0
  }

  method PacketComplete(client: Client) returns (r: int)
    requires client.Valid()
    ensures r == Completeness(client.Packet())
  {
    if client.size < 25 {
      return 0;
    }
    var head := DecodeTypeLength(client.packet, client.size, 0);
    if !head.Parsed? {
      return -1;
    } else if head.value.tag != SEQUENCE || head.value.length < 1
              || head.value.length > client.size - head.value.next {
      return -1;
    }
    return if client.size - head.value.next == head.value.length then 1 else 0;
  }
}
