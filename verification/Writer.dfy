/** The element writers: each fills a buffer forwards from a given place. */
module Writer {
  import opened Types
  import opened Machine
  import opened Ber
  import opened OidCodec

  /** `before` with `bytes` written over it at `at` and nothing else changed. */
  function Patched(before: seq<Byte>, at: nat, bytes: seq<Byte>): (after: seq<Byte>)
    requires at + |bytes| <= |before|
    ensures |after| == |before|
  {
    before[..at] + bytes + before[at + |bytes|..]
  }

  lemma PatchedTwice(before: seq<Byte>, at: nat, a: seq<Byte>, b: seq<Byte>)
    requires at + |a| + |b| <= |before|
    ensures Patched(Patched(before, at, a), at + |a|, b) == Patched(before, at, a + b)
  {
  }

  lemma PatchedNone(before: seq<Byte>, at: nat)
    requires at <= |before|
    ensures Patched(before, at, []) == before
  {
  }

  lemma PatchedOne(before: seq<Byte>, at: nat, b: Byte)
    requires at < |before|
    ensures before[at := b] == Patched(before, at, [b])
  {
  }

  // ----- octets of an integer -----

  lemma {:induction false} BigEndianModulo(n: int, j: nat, k: nat)
    requires k <= j
    ensures BigEndian(n + Power256(j), k) == BigEndian(n, k)
    decreases k
  {
    if k > 0 {
      BigEndianModulo(n / 0x100, j - 1, k - 1);
    }
  }

  function Power256(k: nat): nat {
    if k == 0 then 1 else 0x100 * Power256(k - 1)
  }

  lemma BigEndianUnsigned(v: Int32, k: nat)
    requires k <= 4
    ensures BigEndian(ToUnsigned(v), k) == BigEndian(v, k)
  {
    BigEndianModulo(v, 4, k);
    assert Power256(4) == 0x1_0000_0000;
  }

  /** The loop that writes the `length` low-order octets of `u`. */
  method WriteOctets(buffer: array<Byte>, at: nat, u: UInt32, length: nat)
    requires at + length <= buffer.Length
    modifies buffer
    ensures buffer[..] == Patched(old(buffer[..]), at, BigEndian(u, length))
  {
    hide ShiftRight, Octets, Patched;
    ghost var before := buffer[..];
    var next, left := at, length;
    ShiftedOut(u, length);
    PatchedNone(before, at);
    while left > 0
      invariant 0 <= left <= length && next == at + (length - left)
      invariant buffer[..] == Patched(before, at, Octets(u, length, left))
    {
      left := left - 1;
      ghost var written := Octets(u, length, left + 1);
      ghost var octet := ShiftRight(u, 8 * left) % 0x100;
      NextOctet(u, length, left);
      PatchedTwice(before, at, written, [octet]);
      PatchedOne(buffer[..], next, octet);
      buffer[next] := ShiftRight(u, 8 * left) % 0x100;
      next := next + 1;
    }
    ShiftedOut(u, length);
  }

  /** The first `length - left` of the octets. */
  function Octets(u: UInt32, length: nat, left: nat): (c: seq<Byte>)
    requires left <= length
    ensures |c| == length - left
  {
    BigEndian(ShiftRight(u, 8 * left), length - left)
  }

  lemma NextOctet(u: UInt32, length: nat, left: nat)
    requires left < length
    ensures Octets(u, length, left) == Octets(u, length, left + 1) + [ShiftRight(u, 8 * left) % 0x100]
  {
    ShiftRightByte(u, 8 * left);
    assert 8 * (left + 1) == 8 * left + 8;
  }

  lemma ShiftedOut(u: UInt32, length: nat)
    ensures Octets(u, length, length) == []
    ensures Octets(u, length, 0) == BigEndian(u, length)
  {
  }

  // ----- headers -----

  method EncodeHeader(buffer: array<Byte>, at: nat, length: nat, tag: Byte) returns (ok: bool)
    requires length <= 0xFFFF ==> at + |Header(tag, length)| <= buffer.Length
    modifies buffer
    ensures ok <==> length <= 0xFFFF
    ensures buffer[..] == if ok then Patched(old(buffer[..]), at, Header(tag, length)) else old(buffer[..])
  {
    if length > 0xFFFF {
      return false;
    }
    HeaderForms(tag, length);
    buffer[at] := tag;
    if length > 0xFF {
      buffer[at + 1] := 0x82;
      buffer[at + 2] := length / 0x100;
      buffer[at + 3] := length % 0x100;
    } else if length > 0x7F {
      buffer[at + 1] := 0x81;
      buffer[at + 2] := length;
    } else {
      buffer[at + 1] := length;
    }
    assert buffer[..] == Patched(old(buffer[..]), at, Header(tag, length));
    return true;
  }

  // ----- whole elements -----

  method EncodeInteger(buffer: array<Byte>, at: nat, v: Int32)
    requires at + |IntegerTlv(v)| <= buffer.Length
    modifies buffer
    ensures buffer[..] == Patched(old(buffer[..]), at, IntegerTlv(v))
  {
    hide BigEndian;
    ghost var before := buffer[..];
    var length;
    if v < -8388608 || v > 8388607 {
      length := 4;
    } else if v < -32768 || v > 32767 {
      length := 3;
    } else if v < -128 || v > 127 {
      length := 2;
    } else {
      length := 1;
    }
    HeaderForms(INTEGER, length);
    buffer[at] := INTEGER;
    buffer[at + 1] := length;
    assert buffer[..] == Patched(before, at, Header(INTEGER, length));
    WriteOctets(buffer, at + 2, ToUnsigned(v), length);
    BigEndianUnsigned(v, length);
    PatchedTwice(before, at, Header(INTEGER, length), BigEndian(v, length));
  }

  method Copy(buffer: array<Byte>, at: nat, bytes: seq<Byte>)
    requires at + |bytes| <= buffer.Length
    modifies buffer
    ensures buffer[..] == Patched(old(buffer[..]), at, bytes)
  {
    forall i | 0 <= i < |bytes| {
      buffer[at + i] := bytes[i];
    }
    assert buffer[at..at + |bytes|] == bytes;
    assert buffer[..] == buffer[..at] + buffer[at..at + |bytes|] + buffer[at + |bytes|..];
  }

  method EncodeString(buffer: array<Byte>, at: nat, s: seq<Byte>) returns (ok: bool)
    requires |s| <= 0xFFFF ==> at + |StringTlv(s)| <= buffer.Length
    modifies buffer
    ensures ok <==> |s| <= 0xFFFF
    ensures buffer[..] == if ok then Patched(old(buffer[..]), at, StringTlv(s)) else old(buffer[..])
  {
    hide Header;
    ok := EncodeHeader(buffer, at, |s|, OCTET_STRING);
    if ok {
      Copy(buffer, at + |Header(OCTET_STRING, |s|)|, s);
      PatchedTwice(old(buffer[..]), at, Header(OCTET_STRING, |s|), s);
    }
  }

  // ----- object identifiers -----

  /** The number of seven-bit groups of a subidentifier. */
  function SubidOctets(v: UInt32): (k: nat)
    ensures k == |Base128(v)|
  {
    assert |Base128(v)| == if v < 0x80 then 1 else if v < 0x4000 then 2 else if v < 0x20_0000 then 3
                           else if v < 0x1000_0000 then 4 else 5 by {
      if v >= 0x80 {
        ContinuedOctets(v / 0x80);
      }
    }
    if v >= 0x1000_0000 then 5 else if v >= 0x20_0000 then 4 else if v >= 0x4000 then 3
    else if v >= 0x80 then 2 else 1
  }

  lemma ContinuedOctets(n: nat)
    requires n < 0x200_0000
    ensures |Continued(n)| == if n < 0x80 then 1 else if n < 0x4000 then 2 else if n < 0x20_0000 then 3 else 4
  {
    if n >= 0x80 {
      ContinuedOctets(n / 0x80);
    }
  }

  /** `k` groups of `n`, all with the continuation bit. */
  function Groups(n: nat, k: nat): (g: seq<Byte>)
    ensures |g| == k
  {
    if k == 0 then [] else Groups(n / 0x80, k - 1) + [n % 0x80 + 0x80]
  }

  lemma {:induction false} GroupsContinued(n: nat)
    ensures Groups(n, |Continued(n)|) == Continued(n)
  {
    if n >= 0x80 {
      GroupsContinued(n / 0x80);
    }
  }

  lemma Base128Groups(v: UInt32)
    ensures Base128(v) == Groups(v / 0x80, |Base128(v)| - 1) + [v % 0x80]
  {
    if v >= 0x80 {
      GroupsContinued(v / 0x80);
    }
  }

  /** What is on the wire of `v` when `left` of its groups are still to come. */
  function GroupsWritten(v: UInt32, left: nat): (g: seq<Byte>)
    requires left <= |Base128(v)|
    ensures |g| == |Base128(v)| - left
  {
    if left == 0 then Base128(v) else Groups(ShiftRight(v, 7 * left), |Base128(v)| - left)
  }

  lemma NextGroup(v: UInt32, left: nat)
    requires left < |Base128(v)|
    ensures var septet := ShiftRight(v, 7 * left) % 0x80;
            GroupsWritten(v, left) == GroupsWritten(v, left + 1) + [if left > 0 then septet + 0x80 else septet]
  {
    ShiftRightSeptet(v, 7 * left);
    assert 7 * (left + 1) == 7 * left + 7;
    if left == 0 {
      Base128Groups(v);
    }
  }

  /** The inner loop of the OID encoder. */
  method WriteSubid(buffer: array<Byte>, at: nat, v: UInt32) returns (next: nat)
    requires at + |Base128(v)| <= buffer.Length
    modifies buffer
    ensures next == at + |Base128(v)|
    ensures buffer[..] == Patched(old(buffer[..]), at, Base128(v))
  {
    hide ShiftRight, Base128, SubidOctets, GroupsWritten, Patched;
    ghost var before := buffer[..];
    var left := SubidOctets(v);
    next := at;
    assert GroupsWritten(v, left) == [];
    PatchedNone(before, at);
    while left > 0
      invariant 0 <= left <= |Base128(v)| && next == at + |Base128(v)| - left
      invariant buffer[..] == Patched(before, at, GroupsWritten(v, left))
    {
      left := left - 1;
      var septet := ShiftRight(v, 7 * left) % 0x80;
      var octet: Byte := if left > 0 then septet + 0x80 else septet;
      NextGroup(v, left);
      PatchedTwice(before, at, GroupsWritten(v, left + 1), [octet]);
      PatchedOne(buffer[..], next, octet);
      buffer[next] := octet;
      next := next + 1;
    }
    AllWritten(v);
  }

  lemma AllWritten(v: UInt32)
    ensures GroupsWritten(v, 0) == Base128(v)
  {
  }

  /** The first loop of the OID encoder and of the MIB builder. */
  method OidContentLength(subids: seq<UInt32>) returns (length: nat)
    requires 2 <= |subids|
    ensures length == |OidContent(subids)|
  {
    hide Base128;
    length := 1;
    for i := 2 to |subids|
      invariant length + |SubidsContent(subids[i..])| == |OidContent(subids)|
    {
      assert subids[i..][1..] == subids[i + 1..];
      length := length + SubidOctets(subids[i]);
    }
  }

  method WriteSubids(buffer: array<Byte>, at: nat, subids: seq<UInt32>)
    requires at + |SubidsContent(subids)| <= buffer.Length
    modifies buffer
    ensures buffer[..] == Patched(old(buffer[..]), at, SubidsContent(subids))
  {
    hide Base128, Patched;
    ghost var before := buffer[..];
    ghost var done := [];
    var next := at;
    PatchedNone(before, at);
    for i := 0 to |subids|
      invariant SubidsContent(subids) == done + SubidsContent(subids[i..])
      invariant next == at + |done|
      invariant buffer[..] == Patched(before, at, done)
    {
      assert subids[i..][1..] == subids[i + 1..];
      ghost var g := Base128(subids[i]);
      assert done + (g + SubidsContent(subids[i + 1..])) == (done + g) + SubidsContent(subids[i + 1..]);
      PatchedTwice(before, at, done, g);
      next := WriteSubid(buffer, next, subids[i]);
      done := done + g;
    }
    assert SubidsContent(subids) == done + [] == done;
  }

  /** The size never comes near the 64 KiB limit the C code checks here. */
  lemma OidIsShort(subids: seq<UInt32>)
    requires 2 <= |subids| <= MAX_NR_SUBIDS
    ensures |OidContent(subids)| <= 71
  {
    SubidsAreShort(subids[2..]);
  }

  lemma {:induction false} SubidsAreShort(subids: seq<UInt32>)
    ensures |SubidsContent(subids)| <= 5 * |subids|
  {
    if subids != [] {
      assert SubidOctets(subids[0]) <= 5;
      SubidsAreShort(subids[1..]);
    }
  }

  method EncodeOid(buffer: array<Byte>, at: nat, subids: seq<UInt32>)
    requires 2 <= |subids| <= MAX_NR_SUBIDS && at + |OidTlv(subids)| <= buffer.Length
    modifies buffer
    ensures buffer[..] == Patched(old(buffer[..]), at, OidTlv(subids))
  {
    hide Header, SubidsContent, Patched;
    ghost var before := buffer[..];
    var length := OidContentLength(subids);
    OidIsShort(subids);
    var ok := EncodeHeader(buffer, at, length, OID);
    ghost var header := Header(OID, length);
    var next := at + |Header(OID, length)|;
    var octet := FirstOctet(subids);
    PatchedOne(buffer[..], next, octet);
    PatchedTwice(before, at, header, [octet]);
    buffer[next] := octet;
    WriteSubids(buffer, next + 1, subids[2..]);
    PatchedTwice(before, at, header + [octet], SubidsContent(subids[2..]));
    assert header + [octet] + SubidsContent(subids[2..]) == OidTlv(subids);
  }
}
