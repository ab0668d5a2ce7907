/** Object identifiers on the wire: the X.690 form, what the agent's decoder reads from any
    contents octets, and when the two are inverse. */
module OidCodec {
  import opened Types
  import opened Machine
  import opened Ber

  // ----- writing (X.690 section 8.19) -----

  /** A subidentifier in the fewest groups of seven bits. */
  function Base128(v: nat): (g: seq<Byte>)
    ensures |g| > 0
  {
    if v < 0x80 then [v] else Continued(v / 0x80) + [v % 0x80]
  }

  function Continued(v: nat): (g: seq<Byte>)
    ensures |g| > 0
  {
    if v < 0x80 then [v + 0x80] else Continued(v / 0x80) + [v % 0x80 + 0x80]
  }

  function SubidsContent(subids: seq<UInt32>): seq<Byte> {
    if subids == [] then [] else Base128(subids[0]) + SubidsContent(subids[1..])
  }

  /** The first two subids share one octet, which the agent truncates to eight bits. */
  function FirstOctet(subids: seq<UInt32>): Byte
    requires |subids| >= 2
  {
    (subids[0] as int * 40 + subids[1]) % 0x100
  }

  function OidContent(subids: seq<UInt32>): seq<Byte>
    requires |subids| >= 2
  {
    [FirstOctet(subids)] + SubidsContent(subids[2..])
  }

  function OidTlv(subids: seq<UInt32>): seq<Byte>
    requires |subids| >= 2
  {
    Tlv(OID, OidContent(subids))
  }

  /** The wire size recorded with the OID is the size the encoder writes. */
  predicate Exact(o: Oid)
    requires o.Valid()
  {
    o.encodedLength == |OidTlv(o.subids)|
  }

  /** The OIDs that the one-octet first pair can carry and the decoder takes back. */
  predicate Canonical(subids: seq<UInt32>): (r: bool)
    ensures r ==> 2 <= |subids| <= MAX_NR_SUBIDS
  {
    && 2 <= |subids| <= MAX_NR_SUBIDS
    && subids[1] < 40
    && subids[0] as int * 40 + subids[1] < 0x80
  }

  // ----- reading -----

  /** A group ends with the first octet that has no continuation bit; None if there is none. */
  function GroupLength(c: seq<Byte>): (r: Option<nat>)
    ensures r.Some? ==> r.value <= |c| && IsGroup(c[..r.value])
  {
    if c == [] then None
    else if c[0] < 0x80 then Some(1)
    else
      match GroupLength(c[1..])
      case None => None
      case Some(k) => assert c[..k + 1] == [c[0]] + c[1..][..k]; Some(k + 1)
  }

  predicate IsGroup(g: seq<Byte>) {
    && g != []
    && g[|g| - 1] < 0x80
    && forall i :: 0 <= i < |g| - 1 ==> g[i] >= 0x80
  }

  function GroupValue(g: seq<Byte>): nat {
    if g == [] then 0 else GroupValue(g[..|g| - 1]) * 0x80 + g[|g| - 1] % 0x80
  }

  /** The remaining subidentifiers, each reduced modulo 2^32, `got` being already stored. */
  function SubidsOf(c: seq<Byte>, got: nat): (r: Option<seq<UInt32>>)
    ensures r.Some? && got <= MAX_NR_SUBIDS ==> got + |r.value| <= MAX_NR_SUBIDS
    decreases |c|
  {
    if c == [] then Some([])
    else if got >= MAX_NR_SUBIDS then None
    else
      match GroupLength(c)
      case None => None
      case Some(k) => Prepend([Wrap(GroupValue(c[..k]))], SubidsOf(c[k..], got + 1))
  }

  function Prepend<T>(front: seq<T>, rest: Option<seq<T>>): Option<seq<T>> {
    match rest
    case None => None
    case Some(s) => Some(front + s)
  }

  function OidOf(c: seq<Byte>): (r: Option<seq<UInt32>>)
    ensures r.Some? ==> 2 <= |r.value| <= MAX_NR_SUBIDS
  {
    if c == [] || c[0] >= 0x80 then None
    else Prepend([c[0] / 40, c[0] % 40], SubidsOf(c[1..], 2))
  }

  /** How many octets end a group. */
  function Ends(c: seq<Byte>): nat {
    if c == [] then 0 else Ends(c[1..]) + if c[0] < 0x80 then 1 else 0
  }

  /** Of an OID that does not end with these contents, they are enough to refuse it: its first
      octet is wrong, or another subidentifier would not fit. */
  predicate GivesUp(c: seq<Byte>) {
    c != [] && (c[0] >= 0x80 || Ends(c[1..]) >= MAX_NR_SUBIDS - 2)
  }

  // ----- decoding inverts encoding -----

  lemma {:induction false} GroupLengthAfter(front: seq<Byte>, last: Byte, tail: seq<Byte>)
    requires last < 0x80 && forall i :: 0 <= i < |front| ==> front[i] >= 0x80
    ensures GroupLength(front + [last] + tail) == Some(|front| + 1)
  {
    if front != [] {
      GroupLengthAfter(front[1..], last, tail);
      assert (front + [last] + tail)[1..] == front[1..] + [last] + tail;
    }
  }

  lemma {:induction false} ContinuedValue(v: nat)
    ensures GroupValue(Continued(v)) == v
    ensures forall i :: 0 <= i < |Continued(v)| ==> Continued(v)[i] >= 0x80
  {
    if v < 0x80 {
      assert GroupValue(Continued(v)[..0]) == 0;
    } else {
      ContinuedValue(v / 0x80);
      assert Continued(v)[..|Continued(v)| - 1] == Continued(v / 0x80);
    }
  }

  lemma Base128Value(v: nat, tail: seq<Byte>)
    ensures GroupValue(Base128(v)) == v
    ensures GroupLength(Base128(v) + tail) == Some(|Base128(v)|)
  {
    if v < 0x80 {
      assert GroupValue(Base128(v)[..0]) == 0;
      GroupLengthAfter([], v, tail);
      assert [] + [v] + tail == Base128(v) + tail;
    } else {
      ContinuedValue(v / 0x80);
      assert Base128(v)[..|Base128(v)| - 1] == Continued(v / 0x80);
      GroupLengthAfter(Continued(v / 0x80), v % 0x80, tail);
    }
  }

  lemma {:induction false} ReadSubids(subids: seq<UInt32>, got: nat)
    requires got + |subids| <= MAX_NR_SUBIDS
    ensures SubidsOf(SubidsContent(subids), got) == Some(subids)
  {
    if subids != [] {
      var first, rest := Base128(subids[0]), SubidsContent(subids[1..]);
      Base128Value(subids[0], rest);
      WrapIdentity(subids[0]);
      assert (first + rest)[..|first|] == first && (first + rest)[|first|..] == rest;
      ReadSubids(subids[1..], got + 1);
      assert [subids[0]] + subids[1..] == subids;
    }
  }

  /** The decoder takes back what was written exactly for canonical OIDs. */
  /** The decoder takes back what was written exactly for canonical OIDs. */
  lemma OidRoundTrip(subids: seq<UInt32>)
    requires 2 <= |subids| <= MAX_NR_SUBIDS
    ensures OidOf(OidContent(subids)) == Some(subids) <==> Canonical(subids)
  {
    hide SubidsContent, SubidsOf;
    var octet, rest := FirstOctet(subids), subids[2..];
    ReadSubids(rest, 2);
    assert OidContent(subids)[0] == octet && OidContent(subids)[1..] == SubidsContent(rest);
    PairEqual(octet / 40, octet % 40, subids);
    PairFits(subids[0], subids[1]);
  }

  lemma PairEqual(a: UInt32, b: UInt32, s: seq<UInt32>)
    requires |s| >= 2
    ensures [a, b] + s[2..] == s <==> a == s[0] && b == s[1]
  {
    assert s == [s[0], s[1]] + s[2..];
    assert ([a, b] + s[2..])[0] == a && ([a, b] + s[2..])[1] == b;
  }

  lemma PairFits(a: UInt32, b: UInt32)
    ensures var octet := (a as int * 40 + b) % 0x100;
            octet < 0x80 && octet / 40 == a && octet % 40 == b <==> b < 40 && a as int * 40 + b < 0x80
  {
  }

  // ----- encoding inverts decoding on minimal contents -----

  /** No leading zero septet (X.690 section 8.19.2) and no bits lost. */
  predicate MinimalGroup(g: seq<Byte>)
    requires g != []
  {
    g[0] != 0x80 && GroupValue(g) < 0x1_0000_0000
  }

  /** Every subidentifier after the first octet is minimal. */
  predicate MinimalSubids(c: seq<Byte>)
    decreases |c|
  {
    match GroupLength(c)
    case None => c == []
    case Some(k) => MinimalGroup(c[..k]) && MinimalSubids(c[k..])
  }

  predicate MinimalOid(c: seq<Byte>) {
    c != [] && MinimalSubids(c[1..])
  }

  lemma LastOctet(g: seq<Byte>, front: seq<Byte>)
    requires g != []
    ensures front + [g[|g| - 1]] == g <==> front == g[..|g| - 1]
  {
    assert g == g[..|g| - 1] + [g[|g| - 1]];
    assert (front + [g[|g| - 1]])[..|front|] == front;
  }

  lemma GroupOfOne(g: seq<Byte>)
    requires |g| == 1
    ensures GroupValue(g) == g[0] % 0x80
  {
    assert GroupValue(g[..0]) == 0;
  }

  /** A run of continuation octets is the shortest for its value unless it leads with zero. */
  lemma {:induction false} ContinuedShortest(g: seq<Byte>)
    requires g != [] && forall i :: 0 <= i < |g| ==> g[i] >= 0x80
    ensures Continued(GroupValue(g)) == g <==> |g| == 1 || g[0] != 0x80
    ensures |Continued(GroupValue(g))| <= |g|
    ensures g[0] != 0x80 ==> GroupValue(g) > 0
  {
    var n := |g| - 1;
    if n == 0 {
      GroupOfOne(g);
    } else {
      var front := g[..n];
      ContinuedShortest(front);
      LastOctet(g, Continued(GroupValue(front)));
      if n == 1 {
        GroupOfOne(front);
      }
    }
  }

  lemma GroupShortest(g: seq<Byte>)
    requires IsGroup(g)
    ensures Base128(GroupValue(g)) == g <==> g[0] != 0x80
    ensures |Base128(GroupValue(g))| <= |g|
  {
    hide Continued, Base128, GroupValue;
    var n := |g| - 1;
    GroupValueLast(g);
    if n == 0 {
      GroupOfOne(g);
      Base128Shift(0, g[0]);
      assert g == [g[0]];
    } else {
      var front := g[..n];
      var v := GroupValue(front);
      Base128Shift(v, g[n]);
      ContinuedShortest(front);
      ContinuedZero(front);
      if v > 0 {
        LastOctet(g, Continued(v));
      }
    }
  }

  lemma GroupValueLast(g: seq<Byte>)
    requires IsGroup(g)
    ensures GroupValue(g) == GroupValue(g[..|g| - 1]) * 0x80 + g[|g| - 1]
  {
  }

  lemma Base128Shift(v: nat, last: Byte)
    requires last < 0x80
    ensures Base128(v * 0x80 + last) == if v == 0 then [last] else Continued(v) + [last]
  {
    hide Continued;
    assert (v * 0x80 + last) / 0x80 == v && (v * 0x80 + last) % 0x80 == last;
  }

  /** A run of continuation octets with value zero leads with a zero septet; one of a single
      octet has value zero exactly if it is that septet. */
  lemma ContinuedZero(g: seq<Byte>)
    requires g != [] && forall i :: 0 <= i < |g| ==> g[i] >= 0x80
    ensures GroupValue(g) == 0 ==> g[0] == 0x80
    ensures |g| == 1 ==> (GroupValue(g) == 0 <==> g[0] == 0x80)
  {
    hide Continued;
    ContinuedShortest(g);
    if |g| == 1 {
      GroupOfOne(g);
    }
  }

  lemma {:induction false} ContinuedMonotone(m: nat, n: nat)
    requires m <= n
    ensures |Continued(m)| <= |Continued(n)|
  {
    if m >= 0x80 {
      ContinuedMonotone(m / 0x80, n / 0x80);
    }
  }

  lemma Base128Monotone(m: nat, n: nat)
    requires m <= n
    ensures |Base128(m)| <= |Base128(n)|
  {
    if m >= 0x80 {
      ContinuedMonotone(m / 0x80, n / 0x80);
    }
  }

  /** Re-encoding a group never takes more octets than it came with, and gives the same
      octets back exactly when they were minimal. */
  lemma GroupReencode(g: seq<Byte>)
    requires IsGroup(g)
    ensures |Base128(Wrap(GroupValue(g)))| <= |g|
    ensures Base128(Wrap(GroupValue(g))) == g <==> MinimalGroup(g)
  {
    var v := GroupValue(g);
    GroupShortest(g);
    if v < 0x1_0000_0000 {
      WrapIdentity(v);
    } else {
      Base128Monotone(Wrap(v), v);
      Base128Value(Wrap(v), []);
    }
  }

  lemma {:induction false} SubidsReencode(c: seq<Byte>, got: nat)
    requires SubidsOf(c, got).Some?
    ensures var s := SubidsOf(c, got).value;
            && |SubidsContent(s)| <= |c|
            && (SubidsContent(s) == c <==> MinimalSubids(c))
    decreases |c|
  {
    if c != [] {
      var s, k := SubidsOf(c, got).value, GroupLength(c).value;
      var first, rest := c[..k], c[k..];
      GroupReencode(first);
      SubidsReencode(rest, got + 1);
      assert s[1..] == SubidsOf(rest, got + 1).value;
      SplitEqual(Base128(s[0]), SubidsContent(s[1..]), first, rest);
      assert c == first + rest;
    }
  }

  lemma SplitEqual<T>(a: seq<T>, b: seq<T>, a': seq<T>, b': seq<T>)
    requires |a| <= |a'| && |b| <= |b'|
    ensures a + b == a' + b' <==> a == a' && b == b'
  {
    if a + b == a' + b' {
      assert |a| == |a'|;
      assert (a + b)[..|a|] == a && (a' + b')[..|a|] == a';
      assert (a + b)[|a|..] == b && (a' + b')[|a|..] == b';
    }
  }

  /** The partner of OidRoundTrip: an accepted OID re-encodes to the octets it came from
      exactly when those were minimal, and never to more of them. */
  lemma OidReencode(c: seq<Byte>)
    requires OidOf(c).Some?
    ensures var s := OidOf(c).value;
            && |OidContent(s)| <= |c|
            && (OidContent(s) == c <==> MinimalOid(c))
  {
    var s, rest := OidOf(c).value, c[1..];
    assert s[2..] == SubidsOf(rest, 2).value;
    SubidsReencode(rest, 2);
    assert c[0] / 40 * 40 + c[0] % 40 == c[0];
    assert FirstOctet(s) == c[0];
    assert OidContent(s) == [c[0]] + SubidsContent(s[2..]);
    assert c == [c[0]] + rest;
    assert OidContent(s)[1..] == SubidsContent(s[2..]);
  }
}
