/** Proof-of-work targets as 256-bit big-endian numbers, and the work a target stands for. */
module Target {
  import opened Base
  import Codec
  import opened Arithmetic

  const TWO_256: nat := 0x1_0000000000000000_0000000000000000_0000000000000000_0000000000000000

  /** The number a 32-byte string spells. */
  function Value(b: Hash32): nat {
    FromBigEndian(b)
  }

  lemma SixtyFourBits()
    ensures Pow256(8) == TWO_64
  {
    assert Pow256(2) == 0x1_0000 && Pow256(4) == 0x1_0000_0000 && Pow256(6) == 0x1_0000_0000_0000;
  }

  lemma {:induction false} Pow256Sum(a: nat, b: nat)
    ensures Pow256(a + b) == Pow256(a) * Pow256(b)
  {
    if a > 0 {
      Pow256Sum(a - 1, b);
    }
  }

  lemma ValueBound(b: Hash32)
    ensures Value(b) < TWO_256
  {
    Codec.BigEndianBound(b);
    SixtyFourBits();
    Pow256Sum(8, 8);
    Pow256Sum(16, 16);
  }

  /** The first difference from the left decides. */
  lemma {:induction false} FirstDifference(a: Bytes, b: Bytes, i: nat)
    requires |a| == |b| && i < |a| && a[..i] == b[..i] && a[i] < b[i]
    ensures Codec.BytesLess(a, b)
  {
    if i > 0 {
      assert a[0] == a[..i][0] == b[..i][0] == b[0];
      assert a[1..][..i - 1] == a[..i][1..] == b[..i][1..] == b[1..][..i - 1];
      FirstDifference(a[1..], b[1..], i - 1);
    }
  }

  method LessOrEqualBE(a: Hash32, b: Hash32) returns (ok: bool)
    ensures ok <==> Value(a) <= Value(b)
  {
    Codec.BytesOrder(a, b);
    Codec.BytesOrder(b, a);
    var i := 0;
    while i < |a|
      invariant 0 <= i <= |a| && a[..i] == b[..i]
    {
      if a[i] < b[i] {
        FirstDifference(a, b, i);
        return true;
      }
      if a[i] > b[i] {
        FirstDifference(b, a, i);
        return false;
      }
      i := i + 1;
    }
    assert a[..i] == a && b[..i] == b;
    ok := true;
  }

  /** Expected hashes for a target; a zero target stands for no work at all. */
  function CalcBlockWork(target: Hash32): nat {
    if Value(target) == 0 then 0 else TWO_256 / (Value(target) + 1)
  }

  /** The work is the floor of 2^256 / (t + 1), and never less than one. */
  lemma WorkIsFloor(target: Hash32)
    ensures Value(target) == 0 ==> CalcBlockWork(target) == 0
    ensures Value(target) != 0 ==>
      CalcBlockWork(target) * (Value(target) + 1) <= TWO_256 < (CalcBlockWork(target) + 1) * (Value(target) + 1)
    ensures Value(target) != 0 ==> CalcBlockWork(target) >= 1
  {
    ValueBound(target);
    DivMod(TWO_256, Value(target) + 1);
    MulMonotone(CalcBlockWork(target), 0, Value(target) + 1);
  }

  /** A harder target never counts for less work. */
  lemma WorkAntitone(easy: Hash32, hard: Hash32)
    requires 0 < Value(hard) <= Value(easy)
    ensures CalcBlockWork(easy) <= CalcBlockWork(hard)
  {
    DivisorAntitone(TWO_256, Value(hard) + 1, Value(easy) + 1);
  }

  lemma DivisorAntitone(n: nat, small: nat, large: nat)
    requires 0 < small <= large
    ensures n / large <= n / small
  {
    var a, b := n / large, n / small;
    DivMod(n, large);
    DivMod(n, small);
    QuotientBound(n, large);
    MulMonotone(small, large, a);
    MulMonotone(b, a, small);
    assert a * large == large * a && a * small == small * a;
  }
}
