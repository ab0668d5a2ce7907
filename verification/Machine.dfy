/** 32-bit arithmetic and bit shifts of the C code, over the mathematical integers. */
module Machine {
  import opened Types

  function Wrap(x: int): UInt32 { x % 0x1_0000_0000 }

  function ToSigned(u: UInt32): Int32 {
    if u < 0x8000_0000 then u else u - 0x1_0000_0000
  }

  function ToUnsigned(v: Int32): UInt32 {
    if v < 0 then v + 0x1_0000_0000 else v
  }

  /** `u >> bits` on an unsigned value. */
  function ShiftRight(u: nat, bits: nat): nat {
    if bits == 0 then u else ShiftRight(u, bits - 1) / 2
  }

  lemma ShiftRightByte(u: nat, bits: nat)
    ensures ShiftRight(u, bits + 8) == ShiftRight(u, bits) / 256
  {
    var x := ShiftRight(u, bits);
    assert ShiftRight(u, bits + 2) == x / 2 / 2 == x / 4;
    assert ShiftRight(u, bits + 4) == x / 4 / 2 / 2 == x / 16;
    assert ShiftRight(u, bits + 6) == x / 16 / 2 / 2 == x / 64;
    assert ShiftRight(u, bits + 8) == x / 64 / 2 / 2 == x / 256;
  }

  lemma ShiftRightSeptet(u: nat, bits: nat)
    ensures ShiftRight(u, bits + 7) == ShiftRight(u, bits) / 128
  {
    var x := ShiftRight(u, bits);
    assert ShiftRight(u, bits + 2) == x / 2 / 2 == x / 4;
    assert ShiftRight(u, bits + 4) == x / 4 / 2 / 2 == x / 16;
    assert ShiftRight(u, bits + 6) == x / 16 / 2 / 2 == x / 64;
    assert ShiftRight(u, bits + 7) == x / 64 / 2 == x / 128;
  }

  lemma WrapIdentity(x: UInt32)
    ensures Wrap(x) == x
  {
  }

  lemma WrapSigned(v: Int32)
    ensures Wrap(v) == ToUnsigned(v) && ToSigned(Wrap(v)) == v
  {
  }

  /** Shifting in a digit commutes with reduction modulo 2^32. */
  lemma WrapShift(x: int, base: nat, digit: nat)
    requires base == 128 || base == 256
    ensures Wrap(Wrap(x) * base + digit) == Wrap(x * base + digit)
  {
    var q := x / 0x1_0000_0000;
    assert x * base + digit == Wrap(x) * base + digit + q * base * 0x1_0000_0000;
    WrapMultiple(Wrap(x) * base + digit, q * base);
  }

  lemma WrapMultiple(x: int, k: int)
    ensures Wrap(x + k * 0x1_0000_0000) == Wrap(x)
  {
  }
}
