/**
 * `stringToBinary`: each UTF-16 code unit of the text, written in base 2
 * (most significant bit first) and left-padded with zeros to at least eight
 * digits, the blocks concatenated in text order.
 */
module BinaryText {
  import opened Bits

  /** A UTF-16 code unit, as `charCodeAt` returns it. */
  type CodeUnit = c: int | 0 <= c < 0x1_0000

  function Pow2(k: nat): (r: nat)
    ensures r >= 1
  {
    if k == 0 then 1 else 2 * Pow2(k - 1)
  }

  /** The number written by the bits `s`, most significant bit first. */
  function Value(s: seq<Bit>): (v: nat)
  {
    if |s| == 0 then 0 else 2 * Value(s[..|s| - 1]) + s[|s| - 1]
  }

  /** `k` bits write a number below 2^k. */
  lemma {:induction false} ValueBound(s: seq<Bit>)
    ensures Value(s) < Pow2(|s|)
    decreases |s|
  {
    if |s| > 0 {
      ValueBound(s[..|s| - 1]);
    }
  }

  lemma ValueSnoc(s: seq<Bit>, b: Bit)
    ensures Value(s + [b]) == 2 * Value(s) + b
  {
    assert (s + [b])[..|s|] == s;
  }

  /** A bit list that starts with a one writes a number of exactly that many binary digits. */
  lemma {:induction false} ValueLeadingOne(s: seq<Bit>)
    requires |s| >= 1 && s[0] == 1
    ensures Value(s) >= Pow2(|s| - 1)
    decreases |s|
  {
    if |s| > 1 {
      ValueLeadingOne(s[..|s| - 1]);
    }
  }

  /** Leading zeros do not change the value. */
  lemma {:induction false} ValueLeadingZeros(n: nat, s: seq<Bit>)
    ensures Value(Zeros(n) + s) == Value(s)
    decreases |s|
  {
    if |s| == 0 {
      assert Zeros(n) + s == Zeros(n);
      ValueZeros(n);
    } else {
      var s' := s[..|s| - 1];
      assert Zeros(n) + s == (Zeros(n) + s') + [s[|s| - 1]];
      ValueSnoc(Zeros(n) + s', s[|s| - 1]);
      ValueLeadingZeros(n, s');
    }
  }

  lemma {:induction false} ValueZeros(n: nat)
    ensures Value(Zeros(n)) == 0
  {
    if n > 0 {
      assert Zeros(n) == Zeros(n - 1) + [0];
      ValueSnoc(Zeros(n - 1), 0);
      ValueZeros(n - 1);
    }
  }

  /**
   * `Number.prototype.toString(2)` of a non-negative integer, digit by digit:
   * "0" for zero, otherwise the binary digits without leading zeros.
   */
  function BinaryDigits(n: nat): (d: seq<Bit>)
    ensures |d| >= 1
    decreases n
  {
    if n < 2 then [n] else BinaryDigits(n / 2) + [n % 2]
  }

  /**
   * The digits of `toString(2)`: at least one, they write `n`, a positive
   * number has no leading zero, and zero is the single digit 0.
   */
  lemma {:induction false} BinaryDigitsSpec(n: nat)
    ensures |BinaryDigits(n)| >= 1
    ensures Value(BinaryDigits(n)) == n
    ensures n >= 1 ==> BinaryDigits(n)[0] == 1
    ensures n == 0 ==> BinaryDigits(n) == [0]
    decreases n
  {
    if n >= 2 {
      BinaryDigitsSpec(n / 2);
      ValueSnoc(BinaryDigits(n / 2), n % 2);
    }
  }

  /** `padStart(width, '0')`: left-pad with zeros; a longer list is left as it is. */
  function PadStart(s: seq<Bit>, width: nat): (r: seq<Bit>)
    ensures |r| == if |s| >= width then |s| else width
  {
    if |s| >= width then s else Zeros(width - |s|) + s
  }

  /** Padding only adds zeros in front: `s` is the tail of the result, and the value is kept. */
  lemma PadStartSpec(s: seq<Bit>, width: nat)
    ensures PadStart(s, width)[|PadStart(s, width)| - |s|..] == s
    ensures forall k :: 0 <= k < |PadStart(s, width)| - |s| ==> PadStart(s, width)[k] == 0
    ensures Value(PadStart(s, width)) == Value(s)
  {
    if |s| < width {
      ValueLeadingZeros(width - |s|, s);
    }
  }

  /** The bits emitted for one code unit. */
  function CodeUnitBits(c: CodeUnit): (r: seq<Bit>)
    ensures |r| >= 8
  {
    PadStart(BinaryDigits(c), 8)
  }

  /** The number of binary digits of `c`, and so of the bits `toString(2)` emits. */
  function BitLength(c: nat): (k: nat)
  {
    |BinaryDigits(c)|
  }

  /** The digits of a number below 2^8 fit in eight places, and those of one above do not. */
  lemma DigitsWidth(c: nat)
    ensures c < 256 ==> BitLength(c) <= 8
    ensures c >= 256 ==> BitLength(c) > 8
  {
    var d := BinaryDigits(c);
    BinaryDigitsSpec(c);
    ValueBound(d);
    Pow2Bytes();
    if c >= 256 && |d| <= 8 {
      PowMonotone(|d|, 8);
    }
    if c < 256 && c >= 1 && |d| > 8 {
      ValueLeadingOne(d);
      PowMonotone(8, |d| - 1);
    }
  }

  lemma Pow2Bytes()
    ensures Pow2(8) == 0x100 && Pow2(16) == 0x1_0000
  {
    assert Pow2(4) == 16;
    assert Pow2(8) == 256;
    assert Pow2(12) == 4096;
  }

  lemma {:induction false} PowMonotone(a: nat, b: nat)
    requires a <= b
    ensures Pow2(a) <= Pow2(b)
    decreases b
  {
    if a < b {
      PowMonotone(a, b - 1);
    }
  }

  /**
   * A code unit's block writes its value, MSB first. Below 256 it is exactly
   * eight bits; from 256 on it is the full binary width, more than eight bits
   * starting with a one: nothing masks it to eight.
   */
  lemma CodeUnitBitsSpec(c: CodeUnit)
    ensures Value(CodeUnitBits(c)) == c
    ensures c < 256 ==> |CodeUnitBits(c)| == 8
    ensures c >= 256 ==> |CodeUnitBits(c)| == BitLength(c) > 8 && CodeUnitBits(c)[0] == 1
    ensures |CodeUnitBits(c)| <= 16
  {
    var d := BinaryDigits(c);
    BinaryDigitsSpec(c);
    DigitsWidth(c);
    PadStartSpec(d, 8);
    if |d| > 16 {
      ValueLeadingOne(d);
      PowMonotone(16, |d| - 1);
      Pow2Bytes();
    }
  }

  /** The letter "A" (code unit 65) becomes 0100 0001. */
  lemma CodeUnitBitsOfA()
    ensures CodeUnitBits(65) == [0, 1, 0, 0, 0, 0, 0, 1]
  {
    assert BinaryDigits(1) == [1];
    assert BinaryDigits(2) == [1, 0];
    assert BinaryDigits(4) == [1, 0, 0];
    assert BinaryDigits(8) == [1, 0, 0, 0];
    assert BinaryDigits(16) == [1, 0, 0, 0, 0];
    assert BinaryDigits(32) == [1, 0, 0, 0, 0, 0];
    assert BinaryDigits(65) == [1, 0, 0, 0, 0, 0, 1];
  }

  /** `stringToBinary`: the blocks of the code units, in text order. */
  function TextBits(text: seq<CodeUnit>): (bits: seq<Bit>)
    ensures |bits| >= 8 * |text|
  {
    if |text| == 0 then [] else TextBits(text[..|text| - 1]) + CodeUnitBits(text[|text| - 1])
  }

  /** The bits of a concatenation are the concatenation of the bits. */
  lemma {:induction false} TextBitsConcat(a: seq<CodeUnit>, b: seq<CodeUnit>)
    ensures TextBits(a + b) == TextBits(a) + TextBits(b)
    decreases |b|
  {
    if |b| == 0 {
      assert a + b == a;
    } else {
      var b' := b[..|b| - 1];
      var x := b[|b| - 1];
      assert (a + b)[..|a + b| - 1] == a + b';
      assert (a + b)[|a + b| - 1] == x;
      assert TextBits(a + b) == TextBits(a + b') + CodeUnitBits(x);
      assert TextBits(b) == TextBits(b') + CodeUnitBits(x);
      TextBitsConcat(a, b');
    }
  }

  /** Every code unit of `text` is below 256, so each fits one byte. */
  predicate IsNarrow(text: seq<CodeUnit>)
  {
    forall k :: 0 <= k < |text| ==> text[k] < 256
  }

  /**
   * For text of narrow code units the output is eight bits per code unit, and
   * block `k` (bits 8k to 8k + 8) is the block of code unit `k`.
   */
  lemma {:induction false} NarrowTextBits(text: seq<CodeUnit>)
    requires IsNarrow(text)
    ensures |TextBits(text)| == 8 * |text|
    ensures forall k :: 0 <= k < |text| ==> TextBits(text)[8 * k .. 8 * k + 8] == CodeUnitBits(text[k])
    decreases |text|
  {
    if |text| > 0 {
      var n := |text| - 1;
      var prefix := text[..n];
      var front := TextBits(prefix);
      var last := CodeUnitBits(text[n]);
      assert IsNarrow(prefix) by {
        assert forall k :: 0 <= k < n ==> prefix[k] == text[k];
      }
      NarrowTextBits(prefix);
      CodeUnitBitsSpec(text[n]);
      var bits := TextBits(text);
      assert bits == front + last;
      assert |bits| == 8 * n + 8;
      forall k | 0 <= k < |text|
        ensures bits[8 * k .. 8 * k + 8] == CodeUnitBits(text[k])
      {
        if k < n {
          assert prefix[k] == text[k];
          SliceOfConcat(front, last, 8 * k, 8 * k + 8);
        } else {
          SliceOfConcat(front, last, 8 * n, 8 * n + 8);
          assert front + last == bits;
        }
      }
    }
  }

  lemma SliceOfConcat(a: seq<Bit>, b: seq<Bit>, lo: nat, hi: nat)
    requires lo <= hi <= |a + b|
    ensures hi <= |a| ==> (a + b)[lo..hi] == a[lo..hi]
    ensures lo == |a| ==> (a + b)[lo..hi] == b[..hi - lo]
  {
  }

  /** Reads bits back eight at a time, one code unit per byte. */
  function BytesToText(bits: seq<Bit>): (text: seq<CodeUnit>)
    requires |bits| % 8 == 0
    ensures |text| == |bits| / 8
    ensures IsNarrow(text)
    decreases |bits|
  {
    if |bits| == 0 then []
    else
      var byte := bits[|bits| - 8..];
      ValueBound(byte);
      Pow2Bytes();
      BytesToText(bits[..|bits| - 8]) + [Value(byte)]
  }

  /** For narrow text the conversion is lossless: reading it back a byte at a time gives the text. */
  lemma {:induction false} NarrowRoundTrip(text: seq<CodeUnit>)
    requires IsNarrow(text)
    ensures |TextBits(text)| == 8 * |text|
    ensures BytesToText(TextBits(text)) == text
    decreases |text|
  {
    if |text| > 0 {
      var n := |text| - 1;
      var prefix := text[..n];
      assert text == prefix + [text[n]];
      assert IsNarrow(prefix) by {
        assert forall k :: 0 <= k < n ==> prefix[k] == text[k];
      }
      var front := TextBits(prefix);
      var last := CodeUnitBits(text[n]);
      CodeUnitBitsSpec(text[n]);
      NarrowRoundTrip(prefix);
      var bits := TextBits(text);
      assert bits == front + last;
      assert |front| == 8 * n && |last| == 8;
      BytesToTextSnoc(front, last);
    }
  }

  lemma BytesToTextSnoc(front: seq<Bit>, last: seq<Bit>)
    requires |front| % 8 == 0 && |last| == 8
    ensures |front + last| % 8 == 0
    ensures BytesToText(front + last) == BytesToText(front) + [Value(last)]
  {
    var bits := front + last;
    assert bits[..|bits| - 8] == front;
    assert bits[|bits| - 8..] == last;
  }

  /** Bits of equal length that write the same number are the same bits. */
  lemma {:induction false} ValueInjective(s: seq<Bit>, t: seq<Bit>)
    requires |s| == |t| && Value(s) == Value(t)
    ensures s == t
    decreases |s|
  {
    if |s| > 0 {
      var n := |s| - 1;
      assert s[n] == t[n];
      ValueInjective(s[..n], t[..n]);
      assert s == s[..n] + [s[n]];
      assert t == t[..n] + [t[n]];
    }
  }

  /** The value of a concatenation: the high part shifted left past the low part. */
  lemma {:induction false} ValueConcat(a: seq<Bit>, b: seq<Bit>)
    ensures Value(a + b) == Value(a) * Pow2(|b|) + Value(b)
    decreases |b|
  {
    if |b| == 0 {
      assert a + b == a;
    } else {
      var n := |b| - 1;
      var b' := b[..n];
      assert a + b == (a + b') + [b[n]];
      assert b == b' + [b[n]];
      ValueSnoc(a + b', b[n]);
      ValueSnoc(b', b[n]);
      ValueConcat(a, b');
      ShiftStep(Value(a), Pow2(n), Value(b'), b[n]);
    }
  }

  /** The arithmetic of one more low bit below a shifted high part. */
  lemma ShiftStep(x: nat, p: nat, y: nat, bit: Bit)
    ensures 2 * (x * p + y) + bit == x * (2 * p) + (2 * y + bit)
  {
  }

  /** The bits of one code unit, and of two, written out. */
  lemma TextBitsOfPair(c: CodeUnit, hi: CodeUnit, lo: CodeUnit)
    ensures TextBits([c]) == CodeUnitBits(c)
    ensures TextBits([hi, lo]) == CodeUnitBits(hi) + CodeUnitBits(lo)
  {
    assert [c][..0] == [] && [hi, lo][..1] == [hi];
  }

  /**
   * Without masking, code units from 0x8000 on make the output ambiguous: such
   * a code unit gives the same sixteen bits as the two code units of its high
   * and its low byte.
   */
  lemma WideCodeUnitCollides(c: CodeUnit)
    requires c >= 0x8000
    ensures TextBits([c]) == TextBits([c / 256, c % 256])
  {
    var hi: CodeUnit, lo: CodeUnit := c / 256, c % 256;
    var d := BinaryDigits(c);
    CodeUnitBitsSpec(c);
    CodeUnitBitsSpec(hi);
    CodeUnitBitsSpec(lo);
    BinaryDigitsSpec(c);
    ValueBound(d);
    Pow2Bytes();
    assert Pow2(15) == 0x8000;
    if |d| < 16 {
      PowMonotone(|d|, 15);
    }
    TextBitsOfPair(c, hi, lo);
    ValueConcat(CodeUnitBits(hi), CodeUnitBits(lo));
    ValueInjective(CodeUnitBits(c), CodeUnitBits(hi) + CodeUnitBits(lo));
  }
}
