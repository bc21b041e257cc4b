/** The Internet checksum of RFC 1071 and the accumulator its users feed piece by
    piece. */
module Checksum {
  import opened Common

  /** The sum of the 16-bit big-endian words, an odd last octet padded with zero. */
  function WordSum(bytes: seq<Byte>): nat
  {
    if |bytes| == 0 then 0
    else if |bytes| == 1 then 0x100 * bytes[0]
    else 0x100 * bytes[0] + bytes[1] + WordSum(bytes[2..])
  }

  /** End-around carry until 16 bits are left. */
  function Fold(n: nat): (r: U16)
    decreases n
  {
    if n < 0x1_0000 then n else CarryShrinks(n); Fold(n / 0x1_0000 + n % 0x1_0000)
  }

  lemma CarryShrinks(n: nat)
    requires n >= 0x1_0000
    ensures 0 < n / 0x1_0000 + n % 0x1_0000 < n
    ensures (n / 0x1_0000 + n % 0x1_0000) % 0xFFFF == n % 0xFFFF
  {
    var q, r := n / 0x1_0000, n % 0x1_0000;
    assert n == q * 0xFFFF + (q + r);
  }

  lemma {:induction false} FoldIsModulo(n: nat)
    ensures Fold(n) % 0xFFFF == n % 0xFFFF
    ensures Fold(n) == 0 <==> n == 0
  {
    if n >= 0x1_0000 {
      CarryShrinks(n);
      FoldIsModulo(n / 0x1_0000 + n % 0x1_0000);
    }
  }

  function Bytes16(n: U16): (b: seq<Byte>)
    ensures |b| == 2
  {
    [n / 0x100, n % 0x100]
  }

  function U16Of(hi: Byte, lo: Byte): U16
  {
    0x100 * hi + lo
  }

  lemma Bytes16RoundTrip(n: U16)
    ensures U16Of(Bytes16(n)[0], Bytes16(n)[1]) == n
  {
  }

  /** The checksum field over some octets: the complement of their folded sum. */
  function Of(bytes: seq<Byte>): seq<Byte>
  {
    Bytes16(0xFFFF - Fold(WordSum(bytes)))
  }

  /** RFC 1071's receiver test: the sum over everything, checksum included, is all ones. */
  predicate Verifies(bytes: seq<Byte>)
  {
    Fold(WordSum(bytes)) == 0xFFFF
  }

  lemma {:induction false} WordSumAppend(a: seq<Byte>, b: seq<Byte>)
    requires |a| % 2 == 0
    ensures WordSum(a + b) == WordSum(a) + WordSum(b)
    decreases |a|
  {
    if a == [] {
      assert a + b == b;
    } else {
      assert (a + b)[2..] == a[2..] + b;
      WordSumAppend(a[2..], b);
    }
  }

  lemma {:induction false} WordSumSnoc(a: seq<Byte>, x: Byte)
    ensures WordSum(a + [x]) == WordSum(a) + (if |a| % 2 == 0 then 0x100 * x else x)
    decreases |a|
  {
    if |a| >= 2 {
      assert (a + [x])[2..] == a[2..] + [x];
      WordSumSnoc(a[2..], x);
    } else if |a| == 1 {
      assert (a + [x])[2..] == [];
    }
  }

  /** Recomputing over a zeroed field and comparing, against RFC 1071's test, for a
      checksum field at an even offset. With a non-zero sum the recomputed value is
      the one stored value below 0xFFFF that verifies; 0xFFFF verifies exactly when
      0 does. */
  lemma CompareVersusVerify(before: seq<Byte>, stored: U16, after: seq<Byte>)
    requires |before| % 2 == 0
    requires WordSum(before + [0, 0] + after) > 0
    ensures Of(before + [0, 0] + after) == Bytes16(stored)
       <==> Verifies(before + Bytes16(stored) + after) && stored != 0xFFFF
    ensures Of(before + [0, 0] + after) == [0, 0]
       <==> Verifies(before + Bytes16(0xFFFF) + after)
  {
    var sum := WordSum(before + [0, 0] + after);
    FieldAdds(before, stored, after);
    FieldAdds(before, 0xFFFF, after);
    ComplementVersusFold(sum, stored);
    SameBytes(0xFFFF - Fold(sum), stored);
    SameBytes(0xFFFF - Fold(sum), 0);
  }

  lemma SameBytes(a: U16, b: U16)
    ensures Bytes16(a) == Bytes16(b) <==> a == b
  {
    assert a == 0x100 * (a / 0x100) + a % 0x100 && b == 0x100 * (b / 0x100) + b % 0x100;
  }

  lemma ComplementVersusFold(sum: nat, stored: U16)
    requires sum > 0
    ensures 0xFFFF - Fold(sum) == stored <==> Fold(sum + stored) == 0xFFFF && stored != 0xFFFF
    ensures Fold(sum) == 0xFFFF <==> Fold(sum + 0xFFFF) == 0xFFFF
  {
    FoldIsModulo(sum);
    AddedFold(sum, stored);
    AddedFold(sum, 0xFFFF);
  }

  lemma AddedFold(sum: nat, x: U16)
    requires sum > 0 && Fold(sum) > 0
    ensures Fold(sum + x) == 0xFFFF <==> Fold(sum) + x == 0xFFFF || Fold(sum) + x == 2 * 0xFFFF
  {
    FoldIsModulo(sum);
    SameResidue(sum, Fold(sum), x);
    AllOnes(sum + x);
    Residue(Fold(sum) + x);
  }

  lemma SameResidue(n: nat, m: nat, x: nat)
    requires n % 0xFFFF == m % 0xFFFF
    ensures (n + x) % 0xFFFF == (m + x) % 0xFFFF
  {
    assert n + x - (m + x) == 0xFFFF * (n / 0xFFFF - m / 0xFFFF);
  }

  lemma Residue(n: nat)
    requires 0 < n <= 2 * 0xFFFF
    ensures n % 0xFFFF == 0 <==> n == 0xFFFF || n == 2 * 0xFFFF
  {
  }

  /** A non-zero sum folds to all ones exactly when 0xFFFF divides it. */
  lemma AllOnes(n: nat)
    requires n > 0
    ensures Fold(n) == 0xFFFF <==> n % 0xFFFF == 0
  {
    FoldIsModulo(n);
  }

  lemma FieldAdds(before: seq<Byte>, stored: U16, after: seq<Byte>)
    requires |before| % 2 == 0
    ensures WordSum(before + Bytes16(stored) + after) == WordSum(before + [0, 0] + after) + stored
  {
    assert before + Bytes16(stored) + after == before + (Bytes16(stored) + after);
    assert before + [0, 0] + after == before + ([0, 0] + after);
    WordSumAppend(before, Bytes16(stored) + after);
    WordSumAppend(before, [0, 0] + after);
    WordSumAppend(Bytes16(stored), after);
    WordSumAppend([0, 0], after);
    assert Bytes16(stored)[2..] == [] && [0, 0][2..] == [];
  }

  /** The accumulator; `fed` is the concatenation of the pieces it was given. The
      crate that implements it is not part of this model: an odd piece leaves its
      last octet to pair with the first of the next one. */
  class Accumulator {
    ghost var fed: seq<Byte>
    var sum: nat
    var odd: bool

    ghost predicate Valid()
      reads this
    {
      sum == WordSum(fed) && odd == (|fed| % 2 == 1)
    }

    constructor ()
      ensures Valid() && fed == []
    {
      fed, sum, odd := [], 0, false;
    }

    /** Feeding in pieces is feeding their concatenation. */
    method AddBytes(bytes: seq<Byte>)
      requires Valid()
      modifies this
      ensures Valid() && fed == old(fed) + bytes
    {
      for i := 0 to |bytes|
        invariant Valid() && fed == old(fed) + bytes[..i]
      {
        WordSumSnoc(fed, bytes[i]);
        var weight: nat := if odd then 1 else 0x100;
        sum := sum + weight * bytes[i];
        odd := !odd;
        fed := fed + [bytes[i]];
      }
    }

    method Value() returns (checksum: seq<Byte>)
      requires Valid()
      ensures checksum == Of(fed)
    {
      checksum := Bytes16(0xFFFF - Fold(sum));
    }
  }
}
