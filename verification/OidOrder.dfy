/** `oid_cmp`: an order on all 32-bit OIDs, and exactly when it is the lexicographic one. */
module OidOrder {
  import opened Types
  import opened Machine

  type Subids = seq<UInt32>

  /** The C code compares subids as signed, with -1 standing for "no more subids". */
  function SubidAt(a: Subids, i: nat): Int32 {
    if i < |a| then ToSigned(a[i]) else -1
  }

  function CmpFrom(a: Subids, b: Subids, i: nat): (r: int)
    ensures -1 <= r <= 1
    decreases MAX_NR_OIDS - i, a, b  // naming a and b keeps the verifier from unrolling
  {
    if i >= MAX_NR_OIDS || (SubidAt(a, i) == -1 && SubidAt(b, i) == -1) then 0
    else if SubidAt(a, i) > SubidAt(b, i) then 1
    else if SubidAt(a, i) < SubidAt(b, i) then -1
    else CmpFrom(a, b, i + 1)
  }

  function Cmp(a: Subids, b: Subids): int {
    CmpFrom(a, b, 0)
  }

  method OidCmp(a: Subids, b: Subids) returns (r: int)
    ensures r == Cmp(a, b)
  {
    for i := 0 to MAX_NR_OIDS
      invariant CmpFrom(a, b, i) == Cmp(a, b)
    {
      var subid1: int := if |a| > i then ToSigned(a[i]) else -1;
      var subid2: int := if |b| > i then ToSigned(b[i]) else -1;
      if subid1 == -1 && subid2 == -1 {
        return 0;
      } else if subid1 > subid2 {
        return 1;
      } else if subid1 < subid2 {
        return -1;
      }
    }
    return 0;
  }

  // ----- a total preorder on all OIDs -----

  lemma {:induction false} CmpAntisymmetricFrom(a: Subids, b: Subids, i: nat)
    ensures CmpFrom(a, b, i) == -CmpFrom(b, a, i)
    decreases MAX_NR_OIDS - i
  {
    if i < MAX_NR_OIDS {
      CmpAntisymmetricFrom(a, b, i + 1);
    }
  }

  lemma {:induction false} CmpTransitiveFrom(a: Subids, b: Subids, c: Subids, i: nat)
    requires CmpFrom(a, b, i) >= 0 && CmpFrom(b, c, i) >= 0
    ensures CmpFrom(a, c, i) >= 0
    ensures CmpFrom(a, c, i) == 0 <==> CmpFrom(a, b, i) == 0 && CmpFrom(b, c, i) == 0
    decreases MAX_NR_OIDS - i
  {
    if i < MAX_NR_OIDS && SubidAt(a, i) == SubidAt(b, i) == SubidAt(c, i) != -1 {
      CmpTransitiveFrom(a, b, c, i + 1);
    }
  }

  /** Whatever the subids, `oid_cmp` orders OIDs totally, up to ties. */
  lemma CmpIsTotalPreorder(a: Subids, b: Subids, c: Subids)
    ensures Cmp(a, a) == 0
    ensures Cmp(a, b) == -Cmp(b, a)
    ensures Cmp(a, b) >= 0 && Cmp(b, c) >= 0 ==>
              Cmp(a, c) >= 0 && (Cmp(a, c) == 0 <==> Cmp(a, b) == 0 && Cmp(b, c) == 0)
  {
    CmpAntisymmetricFrom(a, a, 0);
    CmpAntisymmetricFrom(a, b, 0);
    if Cmp(a, b) >= 0 && Cmp(b, c) >= 0 {
      CmpTransitiveFrom(a, b, c, 0);
    }
  }

  // ----- the lexicographic order it is meant to be -----

  function Lex(a: Subids, b: Subids): (r: int)
    ensures -1 <= r <= 1
  {
    if a == [] && b == [] then 0
    else if a == [] then -1
    else if b == [] then 1
    else if a[0] < b[0] then -1
    else if a[0] > b[0] then 1
    else Lex(a[1..], b[1..])
  }

  predicate IsLow(u: UInt32) { u < 0x8000_0000 }

  predicate Low(a: Subids) {
    forall i :: 0 <= i < |a| ==> IsLow(a[i])
  }

  /** Where two different OIDs first differ the signs agree (a missing subid counting as
      low), and no subid before that place is 0xFFFFFFFF, which reads as -1. */
  predicate SignSafe(a: Subids, b: Subids) {
    if a == b then true
    else if a == [] then IsLow(b[0])
    else if b == [] then IsLow(a[0])
    else if a[0] == b[0] then a[0] != 0xFFFF_FFFF && SignSafe(a[1..], b[1..])
    else IsLow(a[0]) <==> IsLow(b[0])
  }

  lemma {:induction false} CmpAgreesFrom(a: Subids, b: Subids, i: nat)
    requires i <= |a| <= MAX_NR_SUBIDS && i <= |b| <= MAX_NR_SUBIDS
    ensures CmpFrom(a, b, i) == Lex(a[i..], b[i..]) <==> SignSafe(a[i..], b[i..])
    decreases MAX_NR_OIDS - i
  {
    if a[i..] == b[i..] {
      LexZero(a[i..], b[i..]);
      CmpAntisymmetricFrom(a, b, i);
      CmpEqualFrom(a, b, i);
    } else if i < |a| && i < |b| && a[i] == b[i] {
      assert a[i..] == [a[i]] + a[i + 1..] && b[i..] == [b[i]] + b[i + 1..];
      assert a[i..][1..] == a[i + 1..] && b[i..][1..] == b[i + 1..];
      LexZero(a[i + 1..], b[i + 1..]);
      CmpAgreesFrom(a, b, i + 1);
    }
  }

  lemma {:induction false} CmpEqualFrom(a: Subids, b: Subids, i: nat)
    requires i <= |a| && i <= |b| && a[i..] == b[i..]
    ensures CmpFrom(a, b, i) == 0
    decreases MAX_NR_OIDS - i
  {
    assert |a| == |b|;
    if i < |a| && i < MAX_NR_OIDS {
      assert a[i] == a[i..][0] == b[i..][0] == b[i];
      assert a[i + 1..] == a[i..][1..] == b[i + 1..];
      CmpEqualFrom(a, b, i + 1);
    }
  }

  lemma {:induction false} LexZero(a: Subids, b: Subids)
    ensures Lex(a, b) == 0 <==> a == b
  {
    if a != [] && b != [] {
      LexZero(a[1..], b[1..]);
      assert a == [a[0]] + a[1..] && b == [b[0]] + b[1..];
    }
  }

  /** `oid_cmp` is lexicographic comparison exactly on sign-safe pairs. */
  lemma CmpIsLexicographic(a: Subids, b: Subids)
    requires |a| <= MAX_NR_SUBIDS && |b| <= MAX_NR_SUBIDS
    ensures Cmp(a, b) == Lex(a, b) <==> SignSafe(a, b)
  {
    assert a[0..] == a && b[0..] == b;
    CmpAgreesFrom(a, b, 0);
  }

  /** Two inputs outside it: an extension that compares below its prefix, and two different
      OIDs that compare equal. */
  lemma CmpMisorders()
    ensures Lex([1, 3, 0x8000_0000], [1, 3]) == 1 && Cmp([1, 3, 0x8000_0000], [1, 3]) == -1
    ensures Cmp([1, 3, 0xFFFF_FFFF, 7], [1, 3]) == 0
  {
    var a, b, c := [1, 3, 0x8000_0000], [1, 3], [1, 3, 0xFFFF_FFFF, 7];
    assert CmpFrom(a, b, 2) == -1 && CmpFrom(c, b, 2) == 0;
    assert CmpFrom(a, b, 1) == -1 && CmpFrom(c, b, 1) == 0;
    assert a[1..] == [3, 0x8000_0000] && a[1..][1..] == [0x8000_0000];
    assert b[1..] == [3] && b[1..][1..] == [];
  }

  lemma {:induction false} LowIsSignSafe(a: Subids, b: Subids)
    requires Low(a) && Low(b)
    ensures SignSafe(a, b)
  {
    if a != [] && b != [] && a[0] == b[0] {
      assert IsLow(a[0]);
      LowIsSignSafe(a[1..], b[1..]);
    }
  }

  lemma LowCmp(a: Subids, b: Subids)
    requires Low(a) && Low(b) && |a| <= MAX_NR_SUBIDS && |b| <= MAX_NR_SUBIDS
    ensures Cmp(a, b) == Lex(a, b)
    ensures Cmp(a, b) == 0 <==> a == b
  {
    LowIsSignSafe(a, b);
    CmpIsLexicographic(a, b);
    LexZero(a, b);
  }

  /** What extends a prefix lies after it, and nothing else lies between two extensions. */
  lemma {:induction false} LexPrefix(prefix: Subids, a: Subids, b: Subids, c: Subids)
    ensures prefix <= a ==> Lex(prefix, a) <= 0
    ensures prefix <= a && prefix <= c && Lex(a, b) <= 0 && Lex(b, c) <= 0 ==> prefix <= b
  {
    if prefix != [] && a != [] && b != [] && c != [] {
      LexPrefix(prefix[1..], a[1..], b[1..], c[1..]);
    } else if prefix != [] && a != [] {
      LexPrefix(prefix[1..], a[1..], [], []);
    }
  }
}
