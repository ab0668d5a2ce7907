/** The Basic Encoding Rules as ITU-T X.690 states them, independent of how the agent
    computes them: definite-length headers, values nested in a tree, and integers. */
module Ber {
  import opened Types
  import opened Machine

  // ----- headers (X.690 sections 8.1.2 and 8.1.3) -----

  function Digits(n: nat): (d: seq<Byte>)
    ensures |d| > 0
  {
    if n < 0x100 then [n] else Digits(n / 0x100) + [n % 0x100]
  }

  /** The shortest definite form: one octet, or a count of the octets that follow. */
  function LengthOctets(n: nat): seq<Byte> {
    if n < 0x80 then [n] else [(0x80 + |Digits(n)|) % 0x100] + Digits(n)
  }

  function Header(tag: Byte, n: nat): seq<Byte> {
    [tag] + LengthOctets(n)
  }

  function Tlv(tag: Byte, content: seq<Byte>): seq<Byte> {
    Header(tag, |content|) + content
  }

  // ----- nested values (X.690 section 8.9) -----

  datatype Tree =
    | Leaf(tag: Byte, content: seq<Byte>)
    | Node(tag: Byte, children: seq<Tree>)
    | Encoded(bytes: seq<Byte>)  // an element that is already on the wire

  function Serialize(t: Tree): seq<Byte>
    decreases t, 1
  {
    match t
    case Leaf(tag, content) => Tlv(tag, content)
    case Node(tag, children) => Tlv(tag, SerializeAll(children))
    case Encoded(bytes) => bytes
  }

  function SerializeAll(ts: seq<Tree>): seq<Byte>
    decreases ts, 0
  {
    if ts == [] then [] else Serialize(ts[0]) + SerializeAll(ts[1..])
  }

  // ----- header lemmas -----

  lemma HeaderForms(tag: Byte, n: nat)
    requires n <= 0xFFFF
    ensures n <= 0x7F ==> Header(tag, n) == [tag, n]
    ensures 0x7F < n <= 0xFF ==> Header(tag, n) == [tag, 0x81, n]
    ensures 0xFF < n ==> Header(tag, n) == [tag, 0x82, n / 0x100, n % 0x100]
  {
    if 0xFF < n {
      assert Digits(n) == [n / 0x100, n % 0x100];
    }
  }

  lemma {:induction false} DigitsMonotone(m: nat, n: nat)
    requires m <= n
    ensures |Digits(m)| <= |Digits(n)|
  {
    if m >= 0x100 {
      DigitsMonotone(m / 0x100, n / 0x100);
    }
  }

  lemma HeaderMonotone(tag: Byte, m: nat, n: nat)
    requires m <= n
    ensures |Header(tag, m)| <= |Header(tag, n)|
  {
    DigitsMonotone(m, n);
  }

  // ----- integers (X.690 section 8.3) -----

  function Accumulate(start: int, c: seq<Byte>): int {
    if c == [] then start else Accumulate(start, c[..|c| - 1]) * 0x100 + c[|c| - 1]
  }

  /** The two's complement value of contents octets of any length. */
  function SignedValue(c: seq<Byte>): int
    requires c != []
  {
    Accumulate(if c[0] >= 0x80 then -1 else 0, c)
  }

  function UnsignedValue(c: seq<Byte>): int {
    Accumulate(0, c)
  }

  /** The `k` low-order octets of `n`, most significant first; a negative `n` counts as
      two's complement with its sign extended without end. */
  function BigEndian(n: int, k: nat): (c: seq<Byte>)
    ensures |c| == k
    decreases k
  {
    if k == 0 then [] else BigEndian(n / 0x100, k - 1) + [n % 0x100]
  }

  function IntegerOctets(v: Int32): (k: nat)
    ensures 1 <= k <= 4
  {
    if v < -8388608 || v > 8388607 then 4
    else if v < -32768 || v > 32767 then 3
    else if v < -128 || v > 127 then 2
    else 1
  }

  function IntegerContent(v: Int32): seq<Byte> {
    BigEndian(v, IntegerOctets(v))
  }

  function IntegerTlv(v: Int32): seq<Byte> {
    Tlv(INTEGER, IntegerContent(v))
  }

  function UnsignedOctets(u: UInt32): (k: nat)
    ensures 1 <= k <= 4
  {
    if u >= 0x100_0000 then 4 else if u >= 0x1_0000 then 3 else if u >= 0x100 then 2 else 1
  }

  function UnsignedTlv(tag: Byte, u: UInt32): seq<Byte> {
    Tlv(tag, BigEndian(u, UnsignedOctets(u)))
  }

  function StringTlv(s: seq<Byte>): seq<Byte> {
    Tlv(OCTET_STRING, s)
  }
}
