/**
 * Bits and the even-parity check bit (`calculateParity`) of the iterative
 * code: the sum of a bit list, folded from the left, taken modulo 2.
 */
module Bits {

  /** A binary digit; every data bit and every matrix cell is one. */
  type Bit = b: int | 0 <= b <= 1

  /** The sum of the bits, folded left to right from 0 as `reduce` does. */
  function Sum(s: seq<Bit>): (r: nat)
    ensures r <= |s|
  {
    if |s| == 0 then 0 else Sum(s[..|s| - 1]) + s[|s| - 1]
  }

  /**
   * `calculateParity`: the sum modulo 2. The result is the even-parity check
   * bit of `s`: adding it to the bits of `s` gives an even total.
   */
  function CalculateParity(s: seq<Bit>): (p: Bit)
    ensures (Sum(s) + p) % 2 == 0
  {
    Sum(s) % 2
  }

  /** `s` has an even number of ones: its parity check passes. */
  predicate IsEven(s: seq<Bit>)
  {
    CalculateParity(s) == 0
  }

  /** Exclusive or of two bits: their sum modulo 2. */
  function Xor(x: Bit, y: Bit): Bit
  {
    if x == y then 0 else 1
  }

  /** Bitwise exclusive or of two equally long bit lists. */
  function XorBits(a: seq<Bit>, b: seq<Bit>): (r: seq<Bit>)
    requires |a| == |b|
    ensures |r| == |a|
    ensures forall k :: 0 <= k < |a| ==> r[k] == Xor(a[k], b[k])
  {
    seq(|a|, k requires 0 <= k < |a| => Xor(a[k], b[k]))
  }

  /** A list of `n` zero bits. */
  function Zeros(n: nat): (z: seq<Bit>)
    ensures |z| == n
    ensures forall k :: 0 <= k < n ==> z[k] == 0
  {
    seq(n, _ => 0)
  }

  lemma SumSnoc(s: seq<Bit>, b: Bit)
    ensures Sum(s + [b]) == Sum(s) + b
  {
    assert (s + [b])[..|s|] == s;
  }

  /** The fold step: the parity of `s + [b]` is the parity of `s` plus `b`, mod 2. */
  lemma ParitySnoc(s: seq<Bit>, b: Bit)
    ensures CalculateParity(s + [b]) == Xor(CalculateParity(s), b)
  {
    SumSnoc(s, b);
  }

  /** Appending its own check bit makes any bit list even. */
  lemma CheckBitMakesEven(s: seq<Bit>)
    ensures IsEven(s + [CalculateParity(s)])
  {
    ParitySnoc(s, CalculateParity(s));
  }

  /** A list ending in bit `b` is even exactly when `b` is the check bit of the rest. */
  lemma EvenIffCheckBit(s: seq<Bit>, b: Bit)
    ensures IsEven(s + [b]) <==> b == CalculateParity(s)
  {
    ParitySnoc(s, b);
  }

  lemma {:induction false} SumConcat(a: seq<Bit>, b: seq<Bit>)
    ensures Sum(a + b) == Sum(a) + Sum(b)
    decreases |b|
  {
    if |b| == 0 {
      assert a + b == a;
    } else {
      var b' := b[..|b| - 1];
      assert a + b == (a + b') + [b[|b| - 1]];
      SumSnoc(a + b', b[|b| - 1]);
      SumConcat(a, b');
      assert b == b' + [b[|b| - 1]];
      SumSnoc(b', b[|b| - 1]);
    }
  }

  /** Parity is additive over concatenation. */
  lemma ParityConcat(a: seq<Bit>, b: seq<Bit>)
    ensures CalculateParity(a + b) == Xor(CalculateParity(a), CalculateParity(b))
  {
    SumConcat(a, b);
  }

  /** A list of zeros is even. */
  lemma {:induction false} ParityZeros(n: nat)
    ensures CalculateParity(Zeros(n)) == 0
  {
    if n > 0 {
      assert Zeros(n) == Zeros(n - 1) + [0];
      ParitySnoc(Zeros(n - 1), 0);
      ParityZeros(n - 1);
    }
  }

  /** Parity is linear: the parity of an exclusive or is the exclusive or of the parities. */
  lemma {:induction false} ParityXor(a: seq<Bit>, b: seq<Bit>)
    requires |a| == |b|
    ensures CalculateParity(XorBits(a, b)) == Xor(CalculateParity(a), CalculateParity(b))
    decreases |a|
  {
    var n := |a|;
    if n == 0 {
      assert XorBits(a, b) == [];
    } else {
      var a', b' := a[..n - 1], b[..n - 1];
      var x, y := a[n - 1], b[n - 1];
      var c := Xor(x, y);
      XorSnoc(a, b);
      ParityXor(a', b');
      ParitySnoc(XorBits(a', b'), c);
      ParitySnoc(a', x);
      ParitySnoc(b', y);
      XorShuffle(CalculateParity(a'), CalculateParity(b'), x, y);
    }
  }

  /** Peels the last bit off both lists of an exclusive or, and off the operands. */
  lemma XorSnoc(a: seq<Bit>, b: seq<Bit>)
    requires |a| == |b| > 0
    ensures XorBits(a, b) == XorBits(a[..|a| - 1], b[..|b| - 1]) + [Xor(a[|a| - 1], b[|b| - 1])]
    ensures a == a[..|a| - 1] + [a[|a| - 1]] && b == b[..|b| - 1] + [b[|b| - 1]]
  {
    var n := |a|;
    var x := XorBits(a[..n - 1], b[..n - 1]);
    assert forall k :: 0 <= k < n - 1 ==> XorBits(a, b)[k] == x[k];
  }

  lemma XorShuffle(w: Bit, x: Bit, y: Bit, z: Bit)
    ensures Xor(Xor(w, x), Xor(y, z)) == Xor(Xor(w, y), Xor(x, z))
  {
  }

  /** Flipping any single bit flips the parity: one wrong bit is always detected. */
  lemma {:induction false} ParityFlip(s: seq<Bit>, k: nat)
    requires k < |s|
    ensures CalculateParity(s[k := 1 - s[k]]) == 1 - CalculateParity(s)
    decreases |s|
  {
    var n := |s|;
    var t := s[k := 1 - s[k]];
    var s', t' := s[..n - 1], t[..n - 1];
    assert s == s' + [s[n - 1]];
    assert t == t' + [t[n - 1]];
    ParitySnoc(s', s[n - 1]);
    ParitySnoc(t', t[n - 1]);
    if k < n - 1 {
      assert t' == s'[k := 1 - s'[k]];
      ParityFlip(s', k);
    } else {
      assert t' == s';
    }
  }
}
