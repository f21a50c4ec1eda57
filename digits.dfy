/**
 * The value theory behind a big number: a sequence of decimal digits stored
 * most-significant first (the order of the chain first_digit .. last_digit),
 * its value, leading-zero normalisation, the magnitude comparison and the
 * canonical digits of a natural number.
 *
 * Entries are `int` rather than digits so that the schoolbook multiplication
 * buffer, whose positions transiently hold values up to 18, still has a value.
 */
module Digits {

  /** 10^k. */
  function Pow10(k: nat): (p: nat)
    ensures p >= 1
  {
    if k == 0 then 1 else 10 * Pow10(k - 1)
  }

  /** Value of a most-significant-first digit sequence: the sum of ds[i] * 10^(|ds|-1-i). */
  function Val(ds: seq<int>): int
  {
    if |ds| == 0 then 0 else Val(ds[..|ds| - 1]) * 10 + ds[|ds| - 1]
  }

  /** Every entry is a decimal digit. */
  predicate IsDigits(ds: seq<int>)
  {
    forall i :: 0 <= i < |ds| ==> 0 <= ds[i] <= 9
  }

  /** At least one digit, all digits decimal, no leading zero unless the number is the lone 0. */
  predicate Canonical(ds: seq<int>)
  {
    IsDigits(ds) && |ds| >= 1 && (ds[0] == 0 ==> |ds| == 1)
  }

  function Sign(z: int): int
  {
    if z > 0 then 1 else if z < 0 then -1 else 0
  }

  function Max(a: int, b: int): int
  {
    if a < b then b else a
  }

  function Abs(z: int): nat
  {
    if z < 0 then -z else z
  }

  // ---------------------------------------------------------------------------
  // Arithmetic helpers

  lemma {:induction false} MulMonotone(a: int, b: int, p: int)
    requires a <= b && 0 <= p
    ensures a * p <= b * p
  {
    assert b * p - a * p == (b - a) * p;
  }

  lemma {:induction false} DivModUnique(a: int, d: int, q: int, r: int)
    requires d > 0 && a == q * d + r && 0 <= r < d
    ensures q == a / d && r == a % d
  {
    var q0, r0 := a / d, a % d;
    assert a == q0 * d + r0 && 0 <= r0 < d;
    assert (q - q0) * d == r0 - r;
    if q > q0 {
      MulMonotone(1, q - q0, d);
      assert false;
    } else if q < q0 {
      MulMonotone(1, q0 - q, d);
      assert false;
    }
  }

  lemma {:induction false} Pow10Add(a: nat, b: nat)
    ensures Pow10(a + b) == Pow10(a) * Pow10(b)
  {
    if b > 0 {
      Pow10Add(a, b - 1);
      calc {
        Pow10(a + b);
        10 * Pow10(a + b - 1);
        10 * (Pow10(a) * Pow10(b - 1));
        Pow10(a) * (10 * Pow10(b - 1));
        Pow10(a) * Pow10(b);
      }
    }
  }

  lemma {:induction false} Pow10Monotone(a: nat, b: nat)
    requires a <= b
    ensures Pow10(a) <= Pow10(b)
  {
    if a < b {
      Pow10Monotone(a, b - 1);
    }
  }

  // ---------------------------------------------------------------------------
  // Value of a digit sequence

  /** Splitting a sequence splits its value at the corresponding power of ten. */
  lemma {:induction false} ValConcat(a: seq<int>, b: seq<int>)
    ensures Val(a + b) == Val(a) * Pow10(|b|) + Val(b)
    decreases |b|
  {
    if |b| == 0 {
      assert a + b == a;
    } else {
      var b' := b[..|b| - 1];
      assert (a + b)[..|a + b| - 1] == a + b';
      ValConcat(a, b');
      calc {
        Val(a + b);
        Val(a + b') * 10 + b[|b| - 1];
        (Val(a) * Pow10(|b'|) + Val(b')) * 10 + b[|b| - 1];
        Val(a) * (Pow10(|b'|) * 10) + (Val(b') * 10 + b[|b| - 1]);
        Val(a) * Pow10(|b|) + Val(b);
      }
    }
  }

  /** Prepending a digit d to ds (an insertion at the most-significant end). */
  lemma {:induction false} ValPrepend(d: int, ds: seq<int>)
    ensures Val([d] + ds) == d * Pow10(|ds|) + Val(ds)
  {
    assert [d][..0] == [];
    assert Val([d]) == d;
    ValConcat([d], ds);
  }

  /** Appending a digit d to ds (an insertion at the least-significant end). */
  lemma {:induction false} ValAppend(ds: seq<int>, d: int)
    ensures Val(ds + [d]) == Val(ds) * 10 + d
  {
    assert (ds + [d])[..|ds|] == ds;
  }

  /** The value of the suffix ds[i..] in terms of its first digit. */
  lemma {:induction false} ValSuffixStep(ds: seq<int>, i: nat)
    requires i < |ds|
    ensures Val(ds[i..]) == ds[i] * Pow10(|ds| - 1 - i) + Val(ds[i + 1..])
  {
    assert ds[i..] == [ds[i]] + ds[i + 1..];
    ValPrepend(ds[i], ds[i + 1..]);
  }

  /** n decimal digits hold a value in [0, 10^n). */
  lemma {:induction false} ValBounds(ds: seq<int>)
    requires IsDigits(ds)
    ensures 0 <= Val(ds) < Pow10(|ds|)
  {
    if |ds| > 0 {
      ValBounds(ds[..|ds| - 1]);
    }
  }

  /** A canonical number of n > 1 digits is at least 10^(n-1). */
  lemma {:induction false} ValLeadingLower(ds: seq<int>)
    requires Canonical(ds) && |ds| > 1
    ensures Pow10(|ds| - 1) <= Val(ds)
  {
    assert ds == [ds[0]] + ds[1..];
    ValPrepend(ds[0], ds[1..]);
    ValBounds(ds[1..]);
    MulMonotone(1, ds[0], Pow10(|ds| - 1));
  }

  /** The only canonical sequence of value 0 is the lone digit 0. */
  lemma {:induction false} CanonicalZero(ds: seq<int>)
    requires Canonical(ds)
    ensures Val(ds) == 0 <==> ds == [0]
  {
    if |ds| > 1 {
      ValLeadingLower(ds);
    } else {
      assert ds == [ds[0]];
    }
  }

  /**
   * Taking the t least-significant digits gives the value modulo 10^t; the
   * remaining most-significant digits give the quotient.
   */
  lemma {:induction false} ValSplit(ds: seq<int>, t: nat)
    requires IsDigits(ds) && t <= |ds|
    ensures Val(ds[|ds| - t..]) == Val(ds) % Pow10(t)
    ensures Val(ds[..|ds| - t]) == Val(ds) / Pow10(t)
  {
    var hi, lo := ds[..|ds| - t], ds[|ds| - t..];
    assert ds == hi + lo;
    ValConcat(hi, lo);
    ValBounds(lo);
    DivModUnique(Val(ds), Pow10(t), Val(hi), Val(lo));
  }

  /** Multiplying by the next power of ten multiplies by 10. */
  lemma {:induction false} ScaleTen(a: int, p: nat)
    ensures a * Pow10(p + 1) == (a * Pow10(p)) * 10
  {
    assert Pow10(p + 1) == 10 * Pow10(p);
  }

  /** Replacing the entry at index c changes the value by the difference times its weight. */
  lemma {:induction false} ValUpdate(ds: seq<int>, c: nat, v: int)
    requires c < |ds|
    ensures Val(ds[c := v]) == Val(ds) + (v - ds[c]) * Pow10(|ds| - 1 - c)
    decreases |ds|
  {
    var n := |ds|;
    assert ds[c := v][..n - 1] == if c == n - 1 then ds[..n - 1] else ds[..n - 1][c := v];
    if c < n - 1 {
      ValUpdate(ds[..n - 1], c, v);
      ScaleTen(v - ds[c], n - 2 - c);
    }
  }

  // ---------------------------------------------------------------------------
  // Leading-zero normalisation (the effect of remove_zeros_from_left on digits)

  /** Drops leading zeros while more than one digit remains. */
  function StripZeros(ds: seq<int>): (r: seq<int>)
    requires |ds| >= 1
    ensures 1 <= |r| <= |ds| && r[|r| - 1] == ds[|ds| - 1]
    ensures Val(r) == Val(ds)
    ensures IsDigits(ds) ==> Canonical(r)
  {
    if |ds| > 1 && ds[0] == 0 then
      assert ds == [0] + ds[1..];
      ValPrepend(0, ds[1..]);
      StripZeros(ds[1..])
    else
      ds
  }

  lemma {:induction false} StripZerosCanonical(ds: seq<int>)
    requires Canonical(ds)
    ensures StripZeros(ds) == ds
  {
  }

  /** Normalising twice is normalising once. */
  lemma {:induction false} StripZerosIdempotent(ds: seq<int>)
    requires |ds| >= 1 && IsDigits(ds)
    ensures StripZeros(StripZeros(ds)) == StripZeros(ds)
  {
    StripZerosCanonical(StripZeros(ds));
  }

  // ---------------------------------------------------------------------------
  // Magnitude comparison (compare_big_numbers_modules as a function)

  /** Same-length comparison decided by the first differing digit from the most-significant end. */
  function LexCmp(a: seq<int>, b: seq<int>): (r: int)
    requires |a| == |b|
    ensures -1 <= r <= 1
    ensures r == 0 <==> a == b
  {
    if |a| == 0 then 0
    else if a[0] > b[0] then 1
    else if a[0] < b[0] then -1
    else
      assert a == [a[0]] + a[1..] && b == [b[0]] + b[1..];
      LexCmp(a[1..], b[1..])
  }

  /** The longer sequence is larger; equal lengths are compared digit by digit. */
  function Cmp(a: seq<int>, b: seq<int>): (r: int)
    ensures -1 <= r <= 1
    ensures r == 0 <==> a == b
    ensures |a| > |b| ==> r == 1
    ensures |a| < |b| ==> r == -1
  {
    if |a| > |b| then 1 else if |a| < |b| then -1 else LexCmp(a, b)
  }

  lemma {:induction false} LexCmpAntisymmetric(a: seq<int>, b: seq<int>)
    requires |a| == |b|
    ensures LexCmp(a, b) == -LexCmp(b, a)
  {
    if |a| > 0 && a[0] == b[0] {
      LexCmpAntisymmetric(a[1..], b[1..]);
    }
  }

  /** compare(x, y) == -compare(y, x). */
  lemma {:induction false} CmpAntisymmetric(a: seq<int>, b: seq<int>)
    ensures Cmp(a, b) == -Cmp(b, a)
  {
    if |a| == |b| {
      LexCmpAntisymmetric(a, b);
    }
  }

  lemma {:induction false} LexCmpTransitive(a: seq<int>, b: seq<int>, c: seq<int>)
    requires |a| == |b| == |c|
    requires LexCmp(a, b) >= 0 && LexCmp(b, c) >= 0
    ensures LexCmp(a, c) >= 0
  {
    if |a| > 0 && a[0] == b[0] == c[0] {
      LexCmpTransitive(a[1..], b[1..], c[1..]);
    }
  }

  /** The comparison is a total preorder: "at least" is transitive. */
  lemma {:induction false} CmpTransitive(a: seq<int>, b: seq<int>, c: seq<int>)
    requires Cmp(a, b) >= 0 && Cmp(b, c) >= 0
    ensures Cmp(a, c) >= 0
  {
    if |a| == |b| == |c| {
      LexCmpTransitive(a, b, c);
    }
  }

  /** On equal lengths the digit-by-digit comparison is the comparison of values. */
  lemma {:induction false} LexCmpIsValueOrder(a: seq<int>, b: seq<int>)
    requires |a| == |b| && IsDigits(a) && IsDigits(b)
    ensures LexCmp(a, b) == Sign(Val(a) - Val(b))
  {
    if |a| > 0 {
      var p := Pow10(|a| - 1);
      ValSuffixStep(a, 0);
      ValSuffixStep(b, 0);
      assert a[0..] == a && b[0..] == b;
      ValBounds(a[1..]);
      ValBounds(b[1..]);
      if a[0] > b[0] {
        LeadingDigitDecides(a[0], b[0], Val(a[1..]), Val(b[1..]), p);
      } else if a[0] < b[0] {
        LeadingDigitDecides(b[0], a[0], Val(b[1..]), Val(a[1..]), p);
      } else {
        LexCmpIsValueOrder(a[1..], b[1..]);
      }
    }
  }

  /** Of two numbers with the same count of digits, a larger leading digit makes the larger number. */
  lemma {:induction false} LeadingDigitDecides(da: int, db: int, va: int, vb: int, p: int)
    requires 0 <= va < p && 0 <= vb < p && da > db
    ensures da * p + va > db * p + vb
  {
    MulMonotone(db + 1, da, p);
    assert (db + 1) * p == db * p + p;
  }

  /** For canonical operands the magnitude comparison agrees with comparing the values. */
  lemma {:induction false} CmpIsValueOrder(a: seq<int>, b: seq<int>)
    requires Canonical(a) && Canonical(b)
    ensures Cmp(a, b) == Sign(Val(a) - Val(b))
  {
    if |a| == |b| {
      LexCmpIsValueOrder(a, b);
    } else if |a| > |b| {
      ValLeadingLower(a);
      ValBounds(b);
      Pow10Monotone(|b|, |a| - 1);
    } else {
      ValLeadingLower(b);
      ValBounds(a);
      Pow10Monotone(|a|, |b| - 1);
    }
  }

  /**
   * The comparison orders a and b the way their values are ordered (possibly
   * with equal values ranked apart). It fails for operands with leading zeros
   * of different lengths, such as 007 against 8.
   */
  predicate OrderAgrees(a: seq<int>, b: seq<int>)
  {
    (Cmp(a, b) >= 0 ==> Val(a) >= Val(b)) && (Cmp(a, b) <= 0 ==> Val(a) <= Val(b))
  }

  lemma {:induction false} CanonicalOrderAgrees(a: seq<int>, b: seq<int>)
    requires Canonical(a) && Canonical(b)
    ensures OrderAgrees(a, b) && OrderAgrees(b, a)
  {
    CmpIsValueOrder(a, b);
    CmpIsValueOrder(b, a);
  }

  /** Any digit sequence of positive value is ordered correctly against the single digit 1. */
  lemma {:induction false} OrderAgreesWithOne(a: seq<int>)
    requires IsDigits(a) && Val(a) >= 1
    ensures OrderAgrees(a, [1])
  {
    if |a| == 1 {
      LexCmpIsValueOrder(a, [1]);
    } else {
      assert |a| != 0;
    }
  }

  /** 007 is ranked above 8 although its value is smaller. */
  lemma {:induction false} OrderDisagreesWithLeadingZeros()
    ensures !OrderAgrees([0, 0, 7], [8])
  {
    assert Val([0, 0, 7]) == 7 by {
      assert [0, 0, 7][..2] == [0, 0];
      assert [0, 0][..1] == [0];
    }
  }

  // ---------------------------------------------------------------------------
  // Canonical digits of a natural number

  /** The canonical decimal digits of n. */
  function NatToDigits(n: nat): (r: seq<int>)
    ensures Canonical(r) && Val(r) == n
    ensures n > 0 ==> r[0] != 0
  {
    if n < 10 then [n]
    else
      var r := NatToDigits(n / 10) + [n % 10];
      assert r[..|r| - 1] == NatToDigits(n / 10);
      r
  }

  /** A canonical digit sequence is determined by its value. */
  lemma {:induction false} CanonicalIsNatToDigits(ds: seq<int>)
    requires Canonical(ds)
    ensures Val(ds) >= 0 && ds == NatToDigits(Val(ds))
  {
    ValBounds(ds);
    if |ds| == 1 {
      assert ds == [ds[0]];
    } else {
      var pre, d := ds[..|ds| - 1], ds[|ds| - 1];
      assert ds == pre + [d];
      assert pre[0] == ds[0];
      ValLeadingLower(ds);
      Pow10Monotone(1, |ds| - 1);
      DivModUnique(Val(ds), 10, Val(pre), d);
      CanonicalIsNatToDigits(pre);
    }
  }

  /** Number of decimal digits of n. */
  function Len(n: nat): (k: nat)
    ensures k >= 1
  {
    |NatToDigits(n)|
  }

  lemma {:induction false} CanonicalLength(ds: seq<int>)
    requires Canonical(ds)
    ensures Val(ds) >= 0 && |ds| == Len(Val(ds))
  {
    CanonicalIsNatToDigits(ds);
  }

  /** A value below 10^k needs at most k digits. */
  lemma {:induction false} LenBound(n: nat, k: nat)
    requires 1 <= k && n < Pow10(k)
    ensures Len(n) <= k
  {
    var ds := NatToDigits(n);
    if |ds| > k {
      ValLeadingLower(ds);
      Pow10Monotone(k, |ds| - 1);
    }
  }

  // ---------------------------------------------------------------------------
  // Decimal strings

  predicate IsDigitChar(c: char)
  {
    '0' <= c <= '9'
  }

  /** The digit values of a string of decimal characters (str_number[i] - '0'). */
  function DigitValues(s: string): (ds: seq<int>)
    ensures |ds| == |s|
  {
    if |s| == 0 then [] else DigitValues(s[..|s| - 1]) + [s[|s| - 1] as int - '0' as int]
  }
  /** Reading one more character of a slice adds its digit value at the end. */
  lemma {:induction false} DigitValuesStep(s: string, start: nat, i: nat)
    requires start <= i < |s|
    ensures DigitValues(s[start..i + 1]) == DigitValues(s[start..i]) + [s[i] as int - '0' as int]
  {
    var t := s[start..i + 1];
    assert t[..|t| - 1] == s[start..i] && t[|t| - 1] == s[i];
  }


  /** The characters of a digit sequence. */
  function DigitChars(ds: seq<int>): (s: string)
    requires IsDigits(ds)
    ensures |s| == |ds| && forall i :: 0 <= i < |s| ==> IsDigitChar(s[i])
    ensures DigitValues(s) == ds
  {
    if |ds| == 0 then ""
    else
      var s := DigitChars(ds[..|ds| - 1]) + [('0' as int + ds[|ds| - 1]) as char];
      assert s[..|s| - 1] == DigitChars(ds[..|ds| - 1]);
      s
  }

  /** The decimal text of a non-negative int (what create_big_number_str prints with "%d"). */
  function NatToString(n: nat): (s: string)
    ensures |s| >= 1 && forall i :: 0 <= i < |s| ==> IsDigitChar(s[i])
    ensures s[0] != '-'
    ensures DigitValues(s) == NatToDigits(n)
  {
    DigitChars(NatToDigits(n))
  }
}
