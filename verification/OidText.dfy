/** The dotted text form of OIDs: printing with %d into a bounded buffer, and reading with
    strtoul in base 0 (an unsigned long of 32 bits). */
module OidText {
  import opened Types
  import opened Machine

  const DOT: Byte := 0x2E
  const MINUS: Byte := 0x2D
  const ZERO: Byte := 0x30
  /** The buffer has MAX_NR_SUBIDS * 10 + 2 octets, one of them for the final NUL. */
  const TEXT_ROOM := 161

  // ----- printing -----

  function Decimal(n: nat): (s: seq<Byte>)
    ensures |s| > 0
  {
    if n < 10 then [ZERO + n] else Decimal(n / 10) + [ZERO + n % 10]
  }

  /** ".%d" */
  function SubidText(u: UInt32): seq<Byte> {
    if u < 0x8000_0000 then [DOT] + Decimal(u) else [DOT, MINUS] + Decimal(0x1_0000_0000 - u)
  }

  function Text(subids: seq<UInt32>): seq<Byte> {
    if subids == [] then [] else SubidText(subids[0]) + Text(subids[1..])
  }

  function Cut(s: seq<Byte>, room: nat): seq<Byte> {
    if |s| <= room then s else s[..room]
  }

  lemma CutSum(a: seq<Byte>, b: seq<Byte>, cut: nat)
    requires cut <= |a| + |b|
    ensures (a + b)[..cut] == if cut >= |a| then a + b[..cut - |a|] else a[..cut]
  {
  }

  method OidNtoa(subids: seq<UInt32>) returns (buffer: seq<Byte>)
    ensures buffer == Cut(Text(subids), TEXT_ROOM)
  {
    hide SubidText;
    buffer := [];
    var len := 0;
    ghost var all := [];
    for i := 0 to |subids|
      invariant Text(subids) == all + Text(subids[i..])
      invariant len == |all| <= TEXT_ROOM && buffer == all
    {
      var piece := SubidText(subids[i]);
      assert subids[i..][1..] == subids[i + 1..];
      assert all + (piece + Text(subids[i + 1..])) == (all + piece) + Text(subids[i + 1..]);
      if |all + piece| > TEXT_ROOM {
        CutSum(all, piece, TEXT_ROOM);
        CutSum(all + piece, Text(subids[i + 1..]), TEXT_ROOM);
      }
      all := all + piece;
      buffer := buffer + Cut(piece, TEXT_ROOM - len);
      len := len + |piece|;
      if len > TEXT_ROOM {
        return;
      }
    }
    assert all + [] == all;
  }

  // ----- reading -----

  predicate IsSpace(b: Byte) { b == 0x20 || 0x09 <= b <= 0x0D }

  function Digit(b: Byte): Option<nat> {
    if 0x30 <= b <= 0x39 then Some(b - 0x30)
    else if 0x61 <= b <= 0x66 then Some(b - 0x61 + 10)
    else if 0x41 <= b <= 0x46 then Some(b - 0x41 + 10)
    else None
  }

  predicate IsDigit(b: Byte, base: nat) {
    Digit(b).Some? && Digit(b).value < base
  }

  function Run(s: seq<Byte>, base: nat): (k: nat)
    ensures k <= |s| && Digits(s[..k], base)
  {
    if s == [] || !IsDigit(s[0], base) then 0 else 1 + Run(s[1..], base)
  }

  predicate Digits(s: seq<Byte>, base: nat) {
    forall i :: 0 <= i < |s| ==> IsDigit(s[i], base)
  }

  function Number(s: seq<Byte>, base: nat): nat
    requires Digits(s, base)
  {
    if s == [] then 0
    else
      assert IsDigit(s[|s| - 1], base);
      Number(s[..|s| - 1], base) * base + Digit(s[|s| - 1]).value
  }

  function Spaces(s: seq<Byte>): (k: nat)
    ensures k <= |s|
  {
    if s == [] || !IsSpace(s[0]) then 0 else 1 + Spaces(s[1..])
  }

  /** An unsigned number in the base its prefix shows: its value and the octets it takes; no
      octets if there is no digit. */
  function Magnitude(s: seq<Byte>): (r: (nat, nat))
    ensures r.1 <= |s|
  {
    if |s| > 2 && s[0] == ZERO && s[1] in {0x58, 0x78} && IsDigit(s[2], 16) then
      var k := Run(s[2..], 16);
      (Number(s[2..][..k], 16), k + 2)
    else
      var base := if s != [] && s[0] == ZERO then 8 else 10;
      var k := Run(s, base);
      (Number(s[..k], base), k)
  }

  function Strtoul(s: seq<Byte>): (r: (UInt32, nat))
    ensures r.1 <= |s|
  {
    var i := Spaces(s);
    var signed := i < |s| && s[i] in {0x2B, MINUS};
    var j := if signed then i + 1 else i;
    var m := Magnitude(s[j..]);
    if m.1 == 0 then (0, 0)
    else if m.0 >= 0x1_0000_0000 then (0xFFFF_FFFF, j + m.1)
    else (Wrap(if signed && s[i] == MINUS then -(m.0 as int) else m.0), j + m.1)
  }

  function PrependSubid(u: UInt32, rest: Option<seq<UInt32>>): Option<seq<UInt32>> {
    match rest
    case None => None
    case Some(s) => Some([u] + s)
  }

  function SubidsFrom(s: seq<Byte>, got: nat): Option<seq<UInt32>>
    decreases |s|
  {
    if s == [] then Some([])
    else if got >= MAX_NR_SUBIDS || s[0] != DOT || |s| == 1 then None
    else
      var n := Strtoul(s[1..]);
      PrependSubid(n.0, SubidsFrom(s[1 + n.1..], got + 1))
  }

  /** At least two subids, and a first pair that fits an octet (reckoned modulo 2^32). */
  predicate Encodable(subids: seq<UInt32>) {
    |subids| >= 2 && Wrap(subids[0] as int * 40 + subids[1]) <= 0xFF
  }

  function Aton(s: seq<Byte>): Option<seq<UInt32>> {
    var r := SubidsFrom(s, 0);
    if r.Some? && Encodable(r.value) then r else None
  }

  method OidAton(s: seq<Byte>) returns (r: Option<seq<UInt32>>)
    ensures r == Aton(s)
  {
    hide Strtoul;
    var subids: seq<UInt32>, ptr := [], s;
    if SubidsFrom(s, 0).Some? {
      assert [] + SubidsFrom(s, 0).value == SubidsFrom(s, 0).value;
    }
    while ptr != []
      invariant |subids| <= MAX_NR_SUBIDS
      invariant SubidsFrom(s, 0) == PrependAll(subids, SubidsFrom(ptr, |subids|))
      decreases |ptr|
    {
      if |subids| >= MAX_NR_SUBIDS {
        return None;
      }
      if ptr[0] != DOT {
        return None;
      }
      if |ptr| == 1 {
        return None;
      }
      var n := Strtoul(ptr[1..]);
      PrependAllTwice(subids, n.0, SubidsFrom(ptr[1 + n.1..], |subids| + 1));
      subids, ptr := subids + [n.0], ptr[1 + n.1..];
    }
    assert subids + [] == subids;
    if |subids| < 2 || Wrap(subids[0] as int * 40 + subids[1]) > 0xFF {
      return None;
    }
    return Some(subids);
  }

  function PrependAll(front: seq<UInt32>, rest: Option<seq<UInt32>>): Option<seq<UInt32>> {
    if rest.Some? then Some(front + rest.value) else None
  }

  lemma PrependAllTwice(front: seq<UInt32>, u: UInt32, rest: Option<seq<UInt32>>)
    ensures PrependAll(front, PrependSubid(u, rest)) == PrependAll(front + [u], rest)
  {
    if rest.Some? {
      assert front + ([u] + rest.value) == (front + [u]) + rest.value;
    }
  }

  // ----- the two are inverse -----

  lemma {:induction false} DecimalDigits(n: nat)
    ensures Digits(Decimal(n), 10)
    ensures Number(Decimal(n), 10) == n
    ensures Decimal(n)[0] == ZERO <==> n == 0
    ensures n == 0 ==> |Decimal(n)| == 1
  {
    if n < 10 {
      assert Number(Decimal(n)[..0], 10) == 0;
    } else {
      DecimalDigits(n / 10);
      assert Decimal(n)[..|Decimal(n)| - 1] == Decimal(n / 10);
    }
  }

  /** What stops a number: the end of the text or the next dot. */
  predicate Stops(rest: seq<Byte>) {
    rest == [] || rest[0] == DOT
  }

  lemma {:induction false} RunIs(digits: seq<Byte>, rest: seq<Byte>, base: nat)
    requires Digits(digits, base) && Stops(rest)
    ensures Run(digits + rest, base) == |digits|
  {
    if digits == [] {
      assert digits + rest == rest;
    } else {
      RunIs(digits[1..], rest, base);
      assert (digits + rest)[1..] == digits[1..] + rest;
    }
  }

  /** Decimal digits without a leading zero, or a single zero, are never read as octal or
      hexadecimal. */
  lemma MagnitudeIs(digits: seq<Byte>, rest: seq<Byte>)
    requires digits != [] && Digits(digits, 10)
    requires digits[0] == ZERO ==> |digits| == 1
    requires Stops(rest)
    ensures Magnitude(digits + rest) == (Number(digits, 10), |digits|)
  {
    hide Number, Digits;
    var s := digits + rest;
    assert s[0] == digits[0] && s[..|digits|] == digits;
    if digits[0] == ZERO {
      LoneZero(digits);
      RunIs(digits, rest, 8);
      assert |s| > 1 ==> s[1] == DOT;
    } else {
      RunIs(digits, rest, 10);
    }
  }

  lemma LoneZero(digits: seq<Byte>)
    requires digits == [ZERO]
    ensures Digits(digits, 8) && Digits(digits, 10)
    ensures Number(digits, 8) == Number(digits, 10) == 0
  {
    assert digits[..0] == [];
    assert Number([], 8) == Number([], 10) == 0;
  }

  lemma StrtoulDecimal(digits: seq<Byte>, rest: seq<Byte>)
    requires digits != [] && Digits(digits, 10)
    requires digits[0] == ZERO ==> |digits| == 1
    requires Stops(rest) && Number(digits, 10) < 0x1_0000_0000
    ensures Strtoul(digits + rest) == (Number(digits, 10), |digits|)
  {
    hide Magnitude, Number, Wrap;
    MagnitudeIs(digits, rest);
    var s := digits + rest;
    assert IsDigit(s[0], 10) by { assert IsDigit(digits[0], 10); }
    assert s[0..] == s;
    WrapIdentity(Number(digits, 10));
  }

  lemma StrtoulNegative(digits: seq<Byte>, rest: seq<Byte>)
    requires digits != [] && Digits(digits, 10)
    requires digits[0] == ZERO ==> |digits| == 1
    requires Stops(rest) && Number(digits, 10) < 0x1_0000_0000
    ensures Strtoul([MINUS] + (digits + rest)) == (Wrap(-(Number(digits, 10) as int)), |digits| + 1)
  {
    hide Magnitude, Number, Wrap;
    MagnitudeIs(digits, rest);
    assert ([MINUS] + (digits + rest))[1..] == digits + rest;
  }

  lemma {:induction false} NumberAfterZero(digits: seq<Byte>, base: nat)
    requires base > 0 && Digits(digits, base)
    ensures Digits([ZERO] + digits, base) && Number([ZERO] + digits, base) == Number(digits, base)
  {
    var s := [ZERO] + digits;
    if digits == [] {
      assert s[..0] == [] && Number(s[..0], base) == 0;
    } else {
      NumberAfterZero(digits[..|digits| - 1], base);
      assert s[..|s| - 1] == [ZERO] + digits[..|digits| - 1];
    }
  }

  lemma StrtoulPlain(s: seq<Byte>)
    requires s != [] && s[0] == ZERO
    ensures var m := Magnitude(s);
            Strtoul(s) == if m.1 == 0 then (0, 0) else if m.0 >= 0x1_0000_0000 then (0xFFFF_FFFF, m.1) else (m.0, m.1)
  {
    hide Magnitude, Wrap;
    assert s[0..] == s;
    if Magnitude(s).0 < 0x1_0000_0000 {
      WrapIdentity(Magnitude(s).0);
    }
  }

  /** A number behind "0x" or "0X" is read in base 16, up to 2^32 - 1. */
  lemma ReadsHexadecimal(x: Byte, digits: seq<Byte>, rest: seq<Byte>)
    requires (x == 0x58 || x == 0x78) && digits != [] && Digits(digits, 16)
    requires rest == [] || rest[0] == 0x2E
    ensures var n := Number(digits, 16);
            Strtoul([0x30, x] + (digits + rest)) == (if n < 0x1_0000_0000 then n else 0xFFFF_FFFF, |digits| + 2)
  {
    hide Number, Wrap, Strtoul;
    var s := [0x30, x] + (digits + rest);
    assert s[2..] == digits + rest && IsDigit(digits[0], 16);
    RunIs(digits, rest, 16);
    assert (digits + rest)[..|digits|] == digits;
    StrtoulPlain(s);
  }

  lemma MagnitudeOctal(all: seq<Byte>, rest: seq<Byte>)
    requires all != [] && all[0] == ZERO && Digits(all, 8) && Stops(rest)
    ensures Magnitude(all + rest) == (Number(all, 8), |all|)
  {
    hide Number, Digits;
    var s := all + rest;
    assert s[0] == ZERO && s[..|all|] == all;
    RunIs(all, rest, 8);
    SecondIsNoX(all, rest);
  }

  lemma SecondIsNoX(all: seq<Byte>, rest: seq<Byte>)
    requires all != [] && Digits(all, 8) && Stops(rest)
    ensures |all + rest| > 1 ==> (all + rest)[1] !in {0x58, 0x78}
  {
    if |all| > 1 {
      assert IsDigit(all[1], 8);
    }
  }

  /** A number behind "0" is read in base 8. */
  lemma ReadsOctal(digits: seq<Byte>, rest: seq<Byte>)
    requires Digits(digits, 8) && (rest == [] || rest[0] == 0x2E)
    ensures var n := Number(digits, 8);
            Strtoul([0x30] + (digits + rest)) == (if n < 0x1_0000_0000 then n else 0xFFFF_FFFF, |digits| + 1)
  {
    hide Number, Wrap, Strtoul, Magnitude, Digits;
    var s, all := [0x30] + (digits + rest), [ZERO] + digits;
    NumberAfterZero(digits, 8);
    assert s == all + rest;
    MagnitudeOctal(all, rest);
    StrtoulPlain(s);
  }

  /** The printed text of a subid: a dot (0x2E) and its value as a signed decimal number, a minus
      sign (0x2D) in front of a negative one, without leading zeros. */
  lemma PrintedSubid(u: UInt32)
    ensures var s := SubidText(u);
            var n: nat := if u < 0x8000_0000 then u else 0x1_0000_0000 - u;
            var k := if u < 0x8000_0000 then 1 else 2;
            && k < |s| && s[0] == 0x2E && (k == 2 ==> s[1] == 0x2D)
            && Digits(s[k..], 10) && Number(s[k..], 10) == n && (s[k] == 0x30 <==> n == 0)
  {
    hide Number, Digits, Decimal;
    var n: nat := if u < 0x8000_0000 then u else 0x1_0000_0000 - u;
    DecimalDigits(n);
    assert SubidText(u)[if u < 0x8000_0000 then 1 else 2..] == Decimal(n);
  }

  lemma WrapNegative(u: UInt32)
    ensures Wrap(-(0x1_0000_0000 - u)) == u
  {
  }

  lemma ReadSubidText(u: UInt32, rest: seq<Byte>)
    requires Stops(rest)
    ensures var s := SubidText(u);
            Strtoul((s + rest)[1..]) == (u, |s| - 1)
  {
    hide Strtoul, Decimal, Wrap, Number, Digits;
    if u < 0x8000_0000 {
      DecimalDigits(u);
      StrtoulDecimal(Decimal(u), rest);
      assert (SubidText(u) + rest)[1..] == Decimal(u) + rest;
    } else {
      var n := 0x1_0000_0000 - u;
      DecimalDigits(n);
      StrtoulNegative(Decimal(n), rest);
      WrapNegative(u);
      assert (SubidText(u) + rest)[1..] == [MINUS] + (Decimal(n) + rest);
    }
  }

  lemma {:induction false} ReadText(subids: seq<UInt32>, got: nat)
    requires got + |subids| <= MAX_NR_SUBIDS
    ensures SubidsFrom(Text(subids), got) == Some(subids)
  {
    hide Strtoul, SubidText;
    if subids != [] {
      var s, rest := SubidText(subids[0]), Text(subids[1..]);
      TextStarts(subids[1..]);
      TextStarts(subids);
      ReadSubidText(subids[0], rest);
      ReadText(subids[1..], got + 1);
      assert Text(subids) == s + rest && (s + rest)[0] == DOT;
      assert (s + rest)[1 + (|s| - 1)..] == rest;
      assert [subids[0]] + subids[1..] == subids;
    }
  }

  lemma TextStarts(subids: seq<UInt32>)
    ensures Stops(Text(subids))
    ensures subids != [] ==> |SubidText(subids[0])| >= 2 && SubidText(subids[0])[0] == DOT
  {
  }

  /** Losing its last digits makes a number smaller. */
  lemma {:induction false} NumberOfPrefix(digits: seq<Byte>, k: nat)
    requires k < |digits| && digits[0] != ZERO
    requires Digits(digits, 10)
    ensures Number(digits[..k], 10) < Number(digits, 10)
    decreases |digits|
  {
    var front := digits[..|digits| - 1];
    if k == |digits| - 1 {
      if k == 0 {
        assert Number(digits[..0], 10) == 0;
      } else {
        NumberOfPrefix(front, 0);
      }
    } else {
      NumberOfPrefix(front, k);
      assert front[..k] == digits[..k];
    }
  }

  /** A subid whose text is cut short is read as another one, or not at all. */
  lemma CutSubid(u: UInt32, cut: nat)
    requires 1 < cut < |SubidText(u)|
    ensures var n := Strtoul(SubidText(u)[..cut][1..]);
            n.0 != u || n.1 == 0
  {
    hide Strtoul, Decimal, Number;
    var s := SubidText(u)[..cut][1..];
    if u < 0x8000_0000 {
      DecimalDigits(u);
      NumberOfPrefix(Decimal(u), cut - 1);
      StrtoulDecimal(Decimal(u)[..cut - 1], []);
      assert s == Decimal(u)[..cut - 1] + [];
    } else if cut == 2 {
      assert s == [MINUS];
      LoneMinus();
    } else {
      var n := 0x1_0000_0000 - u;
      DecimalDigits(n);
      NumberOfPrefix(Decimal(n), cut - 2);
      StrtoulNegative(Decimal(n)[..cut - 2], []);
      assert s == [MINUS] + (Decimal(n)[..cut - 2] + []);
    }
  }

  lemma LoneMinus()
    ensures Strtoul([MINUS]) == (0, 0)
  {
    assert [MINUS][1..] == [];
    assert Run([], 10) == 0;
  }

  lemma {:induction false} CutText(subids: seq<UInt32>, got: nat, cut: nat)
    requires cut < |Text(subids)|
    ensures SubidsFrom(Text(subids)[..cut], got) != Some(subids)
  {
    hide Strtoul, SubidText;
    var u, rest := subids[0], Text(subids[1..]);
    var s := SubidText(u);
    TextStarts(subids);
    TextStarts(subids[1..]);
    var t := Text(subids)[..cut];
    assert Text(subids) == s + rest;
    if cut >= |s| {
      CutText(subids[1..], got + 1, cut - |s|);
      CutSum(s, rest, cut);
      ReadSubidText(u, rest[..cut - |s|]);
      assert t[1 + (|s| - 1)..] == rest[..cut - |s|];
    } else if cut > 1 {
      CutSum(s, rest, cut);
      CutSubid(u, cut);
      var n := Strtoul(t[1..]);
      if n.1 == 0 {
        assert t[1..][0] == s[1] != DOT by { SecondOctet(u); }
      }
    }
  }

  lemma SecondOctet(u: UInt32)
    ensures |SubidText(u)| >= 2 && SubidText(u)[1] != DOT
  {
    if u < 0x8000_0000 {
      DecimalDigits(u);
    }
  }

  /** Reading what was printed gives the OID back, whatever its 32-bit subids, exactly when the
      text fits the buffer. */
  lemma TextRoundTrip(subids: seq<UInt32>)
    requires |subids| <= MAX_NR_SUBIDS && Encodable(subids)
    ensures Aton(Cut(Text(subids), TEXT_ROOM)) == Some(subids) <==> |Text(subids)| <= 161
  {
    if |Text(subids)| <= TEXT_ROOM {
      ReadText(subids, 0);
    } else {
      CutText(subids, 0, TEXT_ROOM);
    }
  }
}
