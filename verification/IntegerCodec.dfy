/** What the agent's integer encodings mean: `encode_snmp_integer` writes the one shortest
    two's complement form, while the unsigned form is misread by a two's complement reader
    exactly when its leading bit is set. */
module IntegerCodec {
  import opened Types
  import opened Machine
  import opened Ber

  /** What is left of `n` once its `k` low-order octets are shifted out. */
  function Above(n: int, k: nat): int
    decreases k
  {
    if k == 0 then n else Above(n / 0x100, k - 1)
  }

  lemma {:induction false} AboveLast(n: int, k: nat)
    ensures Above(n, k + 1) == Above(n, k) / 0x100
    decreases k
  {
    if k > 0 {
      AboveLast(n / 0x100, k - 1);
    }
  }

  lemma {:induction false} AboveReadsBack(n: int, k: nat)
    ensures Accumulate(Above(n, k), BigEndian(n, k)) == n
    ensures k > 0 ==> BigEndian(n, k)[0] == Above(n, k - 1) % 0x100
    decreases k
  {
    if k > 0 {
      AboveReadsBack(n / 0x100, k - 1);
      var c := BigEndian(n, k);
      assert c[..k - 1] == BigEndian(n / 0x100, k - 1);
    }
  }

  /** Values outside `k` octets of two's complement are those whose sign is not all that is
      left above them. */
  lemma AboveRanges(n: int)
    ensures -0x80 <= Above(n, 0) < 0x80 <==> -0x80 <= n < 0x80
    ensures -0x80 <= Above(n, 1) < 0x80 <==> -0x8000 <= n < 0x8000
    ensures -0x80 <= Above(n, 2) < 0x80 <==> -0x80_0000 <= n < 0x80_0000
    ensures -0x80 <= Above(n, 3) < 0x80 <==> -0x8000_0000 <= n < 0x8000_0000
  {
    AboveLast(n, 1);
    AboveLast(n, 2);
  }

  lemma SignExtends(n: int, k: nat)
    requires k > 0 && -0x80 <= Above(n, k - 1) < 0x80
    ensures SignedValue(BigEndian(n, k)) == n
  {
    AboveReadsBack(n, k);
    AboveLast(n, k - 1);
    assert Above(n, k) == if BigEndian(n, k)[0] >= 0x80 then -1 else 0;
  }

  /** Decoding gives the value back. */
  lemma IntegerRoundTrip(v: Int32)
    ensures SignedValue(IntegerContent(v)) == v
  {
    AboveRanges(v);
    SignExtends(v, IntegerOctets(v));
  }

  lemma {:induction false} AccumulateInjective(start: int, c: seq<Byte>, start': int, c': seq<Byte>)
    requires |c| == |c'| && Accumulate(start, c) == Accumulate(start', c')
    ensures start == start' && c == c'
  {
    if c != [] {
      var n := |c| - 1;
      AccumulateInjective(start, c[..n], start', c'[..n]);
      assert c == c[..n] + [c[n]] && c' == c'[..n] + [c'[n]];
    }
  }

  lemma {:induction false} AboveAccumulate(start: int, c: seq<Byte>)
    ensures Above(Accumulate(start, c), |c|) == start
  {
    if c != [] {
      AboveAccumulate(start, c[..|c| - 1]);
    }
  }

  /** Among all octet strings, the encoder's is the one shortest form of `v`
      (X.690 section 8.3.2). */
  lemma IntegerContentIsShortest(v: Int32, c: seq<Byte>)
    requires c != []
    ensures SignedValue(c) == v && |c| <= IntegerOctets(v) <==> c == IntegerContent(v)
  {
    IntegerRoundTrip(v);
    if SignedValue(c) == v && |c| <= IntegerOctets(v) {
      SignedValueFits(c);
      AboveRanges(v);
      AccumulateInjective(if c[0] >= 0x80 then -1 else 0, c,
                          if IntegerContent(v)[0] >= 0x80 then -1 else 0, IntegerContent(v));
    }
  }

  lemma SignedValueFits(c: seq<Byte>)
    requires c != []
    ensures -0x80 <= Above(SignedValue(c), |c| - 1) < 0x80
  {
    var sign: int := if c[0] >= 0x80 then -1 else 0;
    AccumulateFront(sign, c);
    AboveAccumulate(sign * 0x100 + c[0], c[1..]);
  }

  lemma {:induction false} AccumulateFront(start: int, c: seq<Byte>)
    requires c != []
    ensures Accumulate(start, c) == Accumulate(start * 0x100 + c[0], c[1..])
  {
    if |c| == 1 {
      assert c[..0] == [] && c[1..] == [];
    } else {
      AccumulateFront(start, c[..|c| - 1]);
      assert c[..|c| - 1][1..] == c[1..][..|c| - 2];
    }
  }

  lemma UnsignedRoundTrip(u: UInt32)
    ensures UnsignedValue(BigEndian(u, UnsignedOctets(u))) == u
  {
    var k := UnsignedOctets(u);
    UnsignedAbove(u);
    AboveReadsBack(u, k);
  }

  lemma UnsignedAbove(u: UInt32)
    ensures Above(u, UnsignedOctets(u)) == 0
  {
    AboveLast(u, 1);
    AboveLast(u, 2);
    AboveLast(u, 3);
  }

  /** The unsigned encoder adds no leading zero octet. Read as a BER integer the result is
      wrong exactly when the first octet has its top bit; read modulo 2^32, as the agent's
      own signed decoder does, four octets still come out right. */
  lemma UnsignedReadAsSigned(u: UInt32)
    ensures var c := BigEndian(u, UnsignedOctets(u));
            && (SignedValue(c) == u <==> c[0] < 0x80)
            && (Wrap(SignedValue(c)) == u <==> c[0] < 0x80 || |c| == 4)
  {
    var k := UnsignedOctets(u);
    var c := BigEndian(u, k);
    UnsignedRoundTrip(u);
    AccumulateSign(c);
    assert Power(0) == 1 && Power(1) == 0x100 && Power(2) == 0x1_0000 && Power(3) == 0x100_0000;
  }

  function Power(k: nat): nat {
    if k == 0 then 1 else 0x100 * Power(k - 1)
  }

  /** A set sign bit subtracts one unit of the next higher octet. */
  lemma {:induction false} AccumulateSign(c: seq<Byte>)
    ensures Accumulate(-1, c) == Accumulate(0, c) - Power(|c|)
  {
    if c != [] {
      AccumulateSign(c[..|c| - 1]);
    }
  }
}
