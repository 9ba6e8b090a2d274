/**
 Big-endian bit strings, as the Go-Back-N engine builds them with
 Python's `format(n, '0<w>b')` and reads them back with `int(s, 2)`.
 A bit is a `bool`: `true` stands for the character '1'.
 */
module Bits {

  type Bits = seq<bool>

  function Pow2(k: nat): (r: nat)
    ensures r >= 1
  {
    if k == 0 then 1 else 2 * Pow2(k - 1)
  }

  lemma {:induction false} Pow2Monotone(j: nat, k: nat)
    requires j <= k
    ensures Pow2(j) <= Pow2(k)
  {
    if j < k {
      Pow2Monotone(j, k - 1);
    }
  }

  lemma Pow2Constants()
    ensures Pow2(8) == 256
    ensures Pow2(16) == 65536
  {
    assert Pow2(4) == 16;
    assert Pow2(8) == 16 * Pow2(4) by {
      assert Pow2(8) == 2 * Pow2(7) == 4 * Pow2(6) == 8 * Pow2(5) == 16 * Pow2(4);
    }
    assert Pow2(12) == 16 * Pow2(8) by {
      assert Pow2(12) == 2 * Pow2(11) == 4 * Pow2(10) == 8 * Pow2(9) == 16 * Pow2(8);
    }
    assert Pow2(16) == 16 * Pow2(12) by {
      assert Pow2(16) == 2 * Pow2(15) == 4 * Pow2(14) == 8 * Pow2(13) == 16 * Pow2(12);
    }
  }

  /** The number a bit string denotes, as `int(s, 2)` reads it (0 for the empty string). */
  function Value(s: Bits): (v: nat)
  {
    if |s| == 0 then 0 else 2 * Value(s[..|s| - 1]) + (if s[|s| - 1] then 1 else 0)
  }

  /** `k` bits never denote more than `2^k - 1`. */
  lemma {:induction false} ValueBound(s: Bits)
    ensures Value(s) < Pow2(|s|)
  {
    if |s| > 0 {
      ValueBound(s[..|s| - 1]);
    }
  }

  function Zeros(k: nat): (r: Bits)
    ensures |r| == k
  {
    seq(k, _ => false)
  }

  /** Leading zeros do not change the value. */
  lemma {:induction false} ValueZerosPrefix(k: nat, s: Bits)
    ensures Value(Zeros(k) + s) == Value(s)
  {
    if |s| == 0 {
      assert Zeros(k) + s == Zeros(k);
      ZerosValue(k);
    } else {
      var t := Zeros(k) + s;
      assert t[..|t| - 1] == Zeros(k) + s[..|s| - 1];
      ValueZerosPrefix(k, s[..|s| - 1]);
    }
  }

  lemma {:induction false} ZerosValue(k: nat)
    ensures Value(Zeros(k)) == 0
  {
    if k > 0 {
      assert Zeros(k)[..k - 1] == Zeros(k - 1);
      ZerosValue(k - 1);
    }
  }

  /** The shortest binary numeral of `n`, as `format(n, 'b')` writes it: no
      leading zero except for `n == 0` itself. */
  function Digits(n: nat): (r: Bits)
    ensures |r| >= 1
    ensures r[0] == (n != 0)
    ensures Value(r) == n
    decreases n
  {
    if n < 2 then
      [n == 1]
    else
      var r := Digits(n / 2) + [n % 2 == 1];
      assert r[..|r| - 1] == Digits(n / 2);
      r
  }

  /** A numeral with a leading one is at least `2^(k-1)`. */
  lemma {:induction false} LeadingOneBound(s: Bits)
    requires |s| >= 1 && s[0]
    ensures Pow2(|s| - 1) <= Value(s)
  {
    if |s| > 1 {
      var p := s[..|s| - 1];
      assert p[0];
      LeadingOneBound(p);
    }
  }

  /** The shortest numeral of `n` fits in `w >= 1` bits exactly when `n < 2^w`. */
  lemma DigitsFit(n: nat, w: nat)
    ensures w >= 1 ==> (|Digits(n)| <= w <==> n < Pow2(w))
  {
    var d := Digits(n);
    ValueBound(d);
    if |d| <= w {
      Pow2Monotone(|d|, w);
    } else if w >= 1 {
      LeadingOneBound(d);
      Pow2Monotone(w, |d| - 1);
    }
  }

  /** `format(n, '0<w>b')`: the numeral of `n` left-padded with zeros to
      width `w`. A number that needs more than `w` bits is written in full,
      never truncated. */
  function Format(n: nat, w: nat): (r: Bits)
    ensures Value(r) == n
    ensures |r| >= w
  {
    var d := Digits(n);
    ValueZerosPrefix(if |d| < w then w - |d| else 0, d);
    if |d| < w then Zeros(w - |d|) + d else d
  }

  /** The numeral written at width `w >= 1` is exactly `w` bits long when
      `n < 2^w`, and longer otherwise. */
  lemma FormatWidth(n: nat, w: nat)
    requires w >= 1
    ensures |Format(n, w)| == w <==> n < Pow2(w)
  {
    DigitsFit(n, w);
  }

  /** Powers of two are a one followed by zeros; their numeral is one bit
      longer than the exponent. */
  lemma {:induction false} DigitsPow2(k: nat)
    ensures Digits(Pow2(k)) == [true] + Zeros(k)
  {
    if k > 0 {
      DigitsPow2(k - 1);
      assert Pow2(k) / 2 == Pow2(k - 1);
      assert Pow2(k) % 2 == 0;
      assert Zeros(k - 1) + [false] == Zeros(k);
    }
  }
}
