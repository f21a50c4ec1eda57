/**
 * multiply_karatsuba_big_numbers: split both operands at half the larger
 * digit count, multiply the parts recursively, and recombine. The value it
 * computes is given by KaratsubaValue on digit counts and values; the
 * methods at the end of the module are proved to compute it.
 */
module Karatsuba {
  import opened Digits
  import opened Numbers
  import opened Arithmetic
  import opened Products
  import opened Power

  // ---------------------------------------------------------------------------
  // The value computed, as a function of the operands' digit counts and values

  /** A split v = hi * p + lo with p >= 10 has parts no larger than v. */
  lemma {:induction false} SplitParts(v: int, p: int, hi: int, lo: int)
    requires 0 <= v && 10 <= p && hi * p + lo == v && 0 <= lo < p
    ensures 0 <= hi && hi + lo <= v && (hi + lo == v ==> hi == 0) && (v > 0 ==> hi < v)
  {
    if hi < 0 {
      MulMonotone(hi, -1, p);
    }
    MulMonotone(1, p, hi);
    assert hi * p - hi == hi * (p - 1);
    if hi > 0 {
      MulMonotone(9, p - 1, hi);
    }
  }

  /** Dividing by 10^h, h >= 1, splits v into a high and a low part, each no larger than v. */
  lemma {:induction false} SplitFacts(v: int, h: nat, hi: int, lo: int)
    requires 0 <= v && 1 <= h && hi == v / Pow10(h) && lo == v % Pow10(h)
    ensures 0 <= hi && 0 <= lo < Pow10(h) && hi * Pow10(h) + lo == v
    ensures hi + lo <= v && (hi + lo == v ==> hi == 0) && (v > 0 ==> hi < v)
    ensures Len(lo) <= h
  {
    Pow10Monotone(1, h);
    SplitParts(v, Pow10(h), hi, lo);
    LenBound(lo, h);
  }

  /**
   * The split parts of operands with nx, ny digits and values vx, vy are
   * non-negative, and each of the three recursive products is on a smaller
   * pair: a smaller sum of values, or the same sum and fewer digits.
   */
  ghost predicate SplitProgress(nx: int, vx: int, ny: int, vy: int, h: int, xl: int, xr: int, yl: int, yr: int)
  {
    1 <= nx && 1 <= ny && 1 <= h && 2 * h < nx + ny && 0 <= xl && 0 <= xr && 0 <= yl && 0 <= yr
    && (xl + yl < vx + vy || (xl + yl == vx + vy && Len(xl) + Len(yl) < nx + ny))
    && xr + yr <= vx + vy
    && (xl + xr + yl + yr < vx + vy || (xl + xr + yl + yr == vx + vy && Len(xl + xr) + Len(yl + yr) < nx + ny))
  }

  /**
   * The three recursive calls of multiply_karatsuba_big_numbers make
   * progress: the sum of the operands' values does not grow, and when it
   * stays the same their total digit count shrinks.
   */
  lemma {:induction false} KaratsubaDecreases(nx: int, vx: int, ny: int, vy: int, h: int, xl: int, xr: int, yl: int, yr: int)
    requires 1 <= nx && 1 <= ny && 0 <= vx && 0 <= vy && !(nx == 1 && ny == 1) && h == Max(nx, ny) / 2
    requires xl == vx / Pow10(h) && xr == vx % Pow10(h) && yl == vy / Pow10(h) && yr == vy % Pow10(h)
    ensures SplitProgress(nx, vx, ny, vy, h, xl, xr, yl, yr)
  {
    SplitFacts(vx, h, xl, xr);
    SplitFacts(vy, h, yl, yr);
    if xl + yl == vx + vy {
      assert vx == 0 && vy == 0 && xl == 0 && yl == 0;
      assert Len(0) == 1;
    }
  }

  /**
   * The sign side effect of subtraction_big_numbers on an operand of value
   * v, normalised, subtracted from or from a normalised operand of value w:
   * both become positive unless both were negative.
   */
  function AfterSubtraction(w: int, v: int): int
  {
    if w >= 0 || v >= 0 then Abs(v) else v
  }

  /**
   * What bignumber.c:406-447 assemble from a = K(x_left, y_left),
   * b = K(x_right, y_right) and c = K(x_left + x_right, y_left + y_right):
   * a shifted by tam digits, plus (c - a - b) shifted by half, plus b, with
   * a and b read after the subtractions have changed their signs.
   */
  function Combination(a: int, b: int, c: int, tam: nat, half: nat): int
  {
    AfterSubtraction(c, a) * Pow10(tam) + (c - a - b) * Pow10(half) + AfterSubtraction(c - a, b)
  }

  /**
   * multiply_karatsuba_big_numbers can run on operands with nx and ny digits
   * and values vx and vy: at every level of the recursion the split point
   * half is at most each operand's digit count, as copy_big_number needs.
   */
  ghost predicate KSafe(nx: int, vx: int, ny: int, vy: int)
    requires 1 <= nx && 1 <= ny && 0 <= vx && 0 <= vy
    decreases vx + vy, nx + ny, 1
  {
    if nx == 1 && ny == 1 then true
    else
      var h := Max(nx, ny) / 2;
      var xl, xr, yl, yr := vx / Pow10(h), vx % Pow10(h), vy / Pow10(h), vy % Pow10(h);
      KaratsubaDecreases(nx, vx, ny, vy, h, xl, xr, yl, yr);
      KSafeParts(nx, vx, ny, vy, h, xl, xr, yl, yr)
  }

  /** KSafe once the operands are split at h into high parts xl, yl and low parts xr, yr. */
  ghost predicate KSafeParts(nx: int, vx: int, ny: int, vy: int, h: int, xl: int, xr: int, yl: int, yr: int)
    requires SplitProgress(nx, vx, ny, vy, h, xl, xr, yl, yr)
    decreases vx + vy, nx + ny, 0
  {
    h <= nx && h <= ny &&
    KSafe(Len(xl), xl, Len(yl), yl) && KSafe(h, xr, h, yr) && KSafe(Len(xl + xr), xl + xr, Len(yl + yr), yl + yr)
  }

  /** The value multiply_karatsuba_big_numbers computes for operands with nx, ny digits and values vx, vy. */
  ghost function KaratsubaValue(nx: int, vx: int, ny: int, vy: int): int
    requires 1 <= nx && 1 <= ny && 0 <= vx && 0 <= vy
    decreases vx + vy, nx + ny, 1
  {
    if nx == 1 && ny == 1 then vx * vy
    else
      var h := Max(nx, ny) / 2;
      var xl, xr, yl, yr := vx / Pow10(h), vx % Pow10(h), vy / Pow10(h), vy % Pow10(h);
      KaratsubaDecreases(nx, vx, ny, vy, h, xl, xr, yl, yr);
      KaratsubaParts(nx, vx, ny, vy, h, xl, xr, yl, yr)
  }

  /** KaratsubaValue once the operands are split at h into high parts xl, yl and low parts xr, yr. */
  ghost function KaratsubaParts(nx: int, vx: int, ny: int, vy: int, h: int, xl: int, xr: int, yl: int, yr: int): int
    requires SplitProgress(nx, vx, ny, vy, h, xl, xr, yl, yr)
    decreases vx + vy, nx + ny, 0
  {
    var a := KaratsubaValue(Len(xl), xl, Len(yl), yl);
    var b := KaratsubaValue(h, xr, h, yr);
    var c := KaratsubaValue(Len(xl + xr), xl + xr, Len(yl + yr), yl + yr);
    Combination(a, b, c, Max(nx, ny), h)
  }

  /** One level of the recursion of KSafe, with the split parts named. */
  lemma {:induction false} KSafeUnfold(nx: int, vx: int, ny: int, vy: int, h: int, xl: int, xr: int, yl: int, yr: int)
    requires 1 <= nx && 1 <= ny && 0 <= vx && 0 <= vy && !(nx == 1 && ny == 1) && h == Max(nx, ny) / 2
    requires xl == vx / Pow10(h) && xr == vx % Pow10(h) && yl == vy / Pow10(h) && yr == vy % Pow10(h)
    ensures SplitProgress(nx, vx, ny, vy, h, xl, xr, yl, yr)
    ensures KSafe(nx, vx, ny, vy) == KSafeParts(nx, vx, ny, vy, h, xl, xr, yl, yr)
  {
    KaratsubaDecreases(nx, vx, ny, vy, h, xl, xr, yl, yr);
  }

  /** One level of the recursion of KaratsubaValue, with the split parts named. */
  lemma {:induction false} KaratsubaValueUnfold(nx: int, vx: int, ny: int, vy: int, h: int, xl: int, xr: int, yl: int, yr: int)
    requires 1 <= nx && 1 <= ny && 0 <= vx && 0 <= vy && !(nx == 1 && ny == 1) && h == Max(nx, ny) / 2
    requires xl == vx / Pow10(h) && xr == vx % Pow10(h) && yl == vy / Pow10(h) && yr == vy % Pow10(h)
    ensures SplitProgress(nx, vx, ny, vy, h, xl, xr, yl, yr)
    ensures KaratsubaValue(nx, vx, ny, vy) == KaratsubaParts(nx, vx, ny, vy, h, xl, xr, yl, yr)
  {
    KaratsubaDecreases(nx, vx, ny, vy, h, xl, xr, yl, yr);
  }

  /** The two combinations the counterexample below evaluates. */
  lemma {:induction false} CounterexampleCombinations()
    ensures Combination(0, 0, 1, 2, 1) == 10 && Combination(10, 0, 10, 3, 1) == 10000
  {
    assert Pow10(1) == 10 && Pow10(2) == 100 && Pow10(3) == 1000;
    assert AfterSubtraction(1, 0) == 0 && AfterSubtraction(10, 10) == 10 && AfterSubtraction(0, 0) == 0;
  }

  /** The digit counts of the parts the counterexample below goes through. */
  lemma {:induction false} SmallLengths()
    ensures Len(0) == 1 && Len(1) == 1 && Len(10) == 2
  {
    assert NatToDigits(10) == NatToDigits(1) + [0];
  }

  /** 10 times 1 on two and one digits splits at half = 1 into 1, 0 and 0, 1: three one-digit products. */
  lemma {:induction false} KSafeTenByOne()
    ensures KSafe(2, 10, 1, 1)
  {
    assert Pow10(1) == 10;
    KSafeUnfold(2, 10, 1, 1, 1, 1, 0, 0, 1);
    SmallLengths();
  }

  /** The inner level of the counterexample below: 10 times 1 is computed correctly. */
  lemma {:induction false} KaratsubaTenByOne()
    ensures KaratsubaValue(2, 10, 1, 1) == 10
  {
    assert Pow10(1) == 10;
    KaratsubaValueUnfold(2, 10, 1, 1, 1, 1, 0, 0, 1);
    SmallLengths();
    SingleDigits(1, 0);
    SingleDigits(0, 1);
    SingleDigits(1, 1);
    assert KaratsubaParts(2, 10, 1, 1, 1, 1, 0, 0, 1) == Combination(0, 0, 1, 2, 1);
    CounterexampleCombinations();
  }

  /** Two single digits are multiplied directly. */
  lemma {:induction false} SingleDigits(vx: int, vy: int)
    requires 0 <= vx && 0 <= vy
    ensures KaratsubaValue(1, vx, 1, vy) == vx * vy
  {
  }

  /** 100 times 10 on three and two digits splits at half = 1 into 10, 0 and 1, 0, which is safe. */
  lemma {:induction false} KSafeHundredByTen()
    ensures KSafe(3, 100, 2, 10)
  {
    assert Pow10(1) == 10;
    KSafeUnfold(3, 100, 2, 10, 1, 10, 0, 1, 0);
    KSafeTenByOne();
    SmallLengths();
  }

  /** The products of that split, 10 * 1, 0 * 0 and (10 + 0) * (1 + 0), combined with tam = 3. */
  lemma {:induction false} KaratsubaHundredByTen()
    ensures KaratsubaValue(3, 100, 2, 10) == 10000
  {
    assert Pow10(1) == 10;
    KaratsubaValueUnfold(3, 100, 2, 10, 1, 10, 0, 1, 0);
    KaratsubaTenByOne();
    KaratsubaPartsUnfold(3, 100, 2, 10, 1, 10, 0, 1, 0);
    SmallLengths();
    SingleDigits(0, 0);
    CounterexampleCombinations();
  }

  /** KaratsubaParts is the combination of the three products of the parts. */
  lemma {:induction false} KaratsubaPartsUnfold(nx: int, vx: int, ny: int, vy: int, h: int, xl: int, xr: int, yl: int, yr: int)
    requires SplitProgress(nx, vx, ny, vy, h, xl, xr, yl, yr)
    ensures KaratsubaParts(nx, vx, ny, vy, h, xl, xr, yl, yr) ==
            Combination(KaratsubaValue(Len(xl), xl, Len(yl), yl), KaratsubaValue(h, xr, h, yr),
                        KaratsubaValue(Len(xl + xr), xl + xr, Len(yl + yr), yl + yr), Max(nx, ny), h)
  {
  }

  /**
   * With an odd larger digit count the high product is shifted by tam
   * digits where 2 * half are needed: 100 times 10 gives 10000, although
   * the split is safe.
   */
  lemma {:induction false} KaratsubaOddLengthCounterexample()
    ensures KSafe(3, 100, 2, 10)
    ensures KaratsubaValue(3, 100, 2, 10) == 10000 != 100 * 10
  {
    KSafeHundredByTen();
    KaratsubaHundredByTen();
  }

  /** Karatsuba as intended: the high product shifted by 2 * half digits. */
  function CorrectedCombination(a: int, b: int, c: int, half: nat): int
  {
    a * Pow10(2 * half) + (c - a - b) * Pow10(half) + b
  }

  /** multiply_karatsuba_big_numbers with the high product shifted by 2 * half digits. */
  ghost function KaratsubaCorrected(nx: int, vx: int, ny: int, vy: int): int
    requires 1 <= nx && 1 <= ny && 0 <= vx && 0 <= vy
    decreases vx + vy, nx + ny, 1
  {
    if nx == 1 && ny == 1 then vx * vy
    else
      var h := Max(nx, ny) / 2;
      var xl, xr, yl, yr := vx / Pow10(h), vx % Pow10(h), vy / Pow10(h), vy % Pow10(h);
      KaratsubaDecreases(nx, vx, ny, vy, h, xl, xr, yl, yr);
      KaratsubaCorrectedParts(nx, vx, ny, vy, h, xl, xr, yl, yr)
  }

  /** KaratsubaCorrected once the operands are split at h. */
  ghost function KaratsubaCorrectedParts(nx: int, vx: int, ny: int, vy: int, h: int, xl: int, xr: int, yl: int, yr: int): int
    requires SplitProgress(nx, vx, ny, vy, h, xl, xr, yl, yr)
    decreases vx + vy, nx + ny, 0
  {
    var a := KaratsubaCorrected(Len(xl), xl, Len(yl), yl);
    var b := KaratsubaCorrected(h, xr, h, yr);
    var c := KaratsubaCorrected(Len(xl + xr), xl + xr, Len(yl + yr), yl + yr);
    CorrectedCombination(a, b, c, h)
  }

  /** One level of the recursion of KaratsubaCorrected, with the split parts named. */
  lemma {:induction false} KaratsubaCorrectedUnfold(nx: int, vx: int, ny: int, vy: int, h: int, xl: int, xr: int, yl: int, yr: int)
    requires 1 <= nx && 1 <= ny && 0 <= vx && 0 <= vy && !(nx == 1 && ny == 1) && h == Max(nx, ny) / 2
    requires xl == vx / Pow10(h) && xr == vx % Pow10(h) && yl == vy / Pow10(h) && yr == vy % Pow10(h)
    ensures SplitProgress(nx, vx, ny, vy, h, xl, xr, yl, yr)
    ensures KaratsubaCorrected(nx, vx, ny, vy) == KaratsubaCorrectedParts(nx, vx, ny, vy, h, xl, xr, yl, yr)
  {
    KaratsubaDecreases(nx, vx, ny, vy, h, xl, xr, yl, yr);
  }

  /** The Karatsuba identity: the three products recombine into the product of the split operands. */
  lemma {:induction false} KaratsubaIdentity(vx: int, vy: int, xl: int, xr: int, yl: int, yr: int, p: int, pp: int, a: int, b: int, c: int)
    requires vx == xl * p + xr && vy == yl * p + yr && pp == p * p
    requires a == xl * yl && b == xr * yr && c == (xl + xr) * (yl + yr)
    ensures a * pp + (c - a - b) * p + b == vx * vy
  {
    assert c - a - b == xl * yr + xr * yl;
    assert vx * vy == xl * yl * (p * p) + (xl * yr + xr * yl) * p + xr * yr;
  }

  /** The corrected combination of the three products is the product of the split operands. */
  lemma {:induction false} CorrectedCombinationIsProduct(vx: int, vy: int, h: nat, xl: int, xr: int, yl: int, yr: int, a: int, b: int, c: int)
    requires vx == xl * Pow10(h) + xr && vy == yl * Pow10(h) + yr
    requires a == xl * yl && b == xr * yr && c == (xl + xr) * (yl + yr)
    ensures CorrectedCombination(a, b, c, h) == vx * vy
  {
    Pow10Add(h, h);
    assert h + h == 2 * h;
    KaratsubaIdentity(vx, vy, xl, xr, yl, yr, Pow10(h), Pow10(2 * h), a, b, c);
  }

  /** Floor division by p > 0 splits v into quotient and remainder. */
  lemma {:induction false} SplitValue(v: int, p: int, q: int, r: int)
    requires 0 < p && q == v / p && r == v % p
    ensures v == q * p + r
  {
  }

  /** One level of KaratsubaCorrectedIsProduct: products of the parts recombine into the product. */
  lemma {:induction false} CorrectedStep(nx: int, vx: int, ny: int, vy: int, h: nat, xl: int, xr: int, yl: int, yr: int)
    requires SplitProgress(nx, vx, ny, vy, h, xl, xr, yl, yr)
    requires xl == vx / Pow10(h) && xr == vx % Pow10(h) && yl == vy / Pow10(h) && yr == vy % Pow10(h)
    requires KaratsubaCorrected(Len(xl), xl, Len(yl), yl) == xl * yl
    requires KaratsubaCorrected(h, xr, h, yr) == xr * yr
    requires KaratsubaCorrected(Len(xl + xr), xl + xr, Len(yl + yr), yl + yr) == (xl + xr) * (yl + yr)
    ensures KaratsubaCorrectedParts(nx, vx, ny, vy, h, xl, xr, yl, yr) == vx * vy
  {
    SplitValue(vx, Pow10(h), xl, xr);
    SplitValue(vy, Pow10(h), yl, yr);
    CorrectedCombinationIsProduct(vx, vy, h, xl, xr, yl, yr, xl * yl, xr * yr, (xl + xr) * (yl + yr));
  }

  /** The corrected Karatsuba computes the product for every pair of operands. */
  lemma {:induction false} KaratsubaCorrectedIsProduct(nx: int, vx: int, ny: int, vy: int)
    requires 1 <= nx && 1 <= ny && 0 <= vx && 0 <= vy
    ensures KaratsubaCorrected(nx, vx, ny, vy) == vx * vy
    decreases vx + vy, nx + ny
  {
    if !(nx == 1 && ny == 1) {
      var h := Max(nx, ny) / 2;
      var xl, xr, yl, yr := vx / Pow10(h), vx % Pow10(h), vy / Pow10(h), vy % Pow10(h);
      KaratsubaCorrectedUnfold(nx, vx, ny, vy, h, xl, xr, yl, yr);
      KaratsubaCorrectedIsProduct(Len(xl), xl, Len(yl), yl);
      KaratsubaCorrectedIsProduct(h, xr, h, yr);
      KaratsubaCorrectedIsProduct(Len(xl + xr), xl + xr, Len(yl + yr), yl + yr);
      CorrectedStep(nx, vx, ny, vy, h, xl, xr, yl, yr);
    }
  }

  /**
   * When the larger digit count tam is 2 * half the code's shift is the
   * textbook one: on parts that are not negative, the subtractions leave
   * a and b as they are, and the combination of the exact products of the
   * parts is the product of the operands.
   */
  lemma {:induction false} CombinationAtEvenLength(vx: int, vy: int, h: nat, xl: int, xr: int, yl: int, yr: int)
    requires 0 <= xl && 0 <= xr && 0 <= yl && 0 <= yr
    requires vx == xl * Pow10(h) + xr && vy == yl * Pow10(h) + yr
    ensures Combination(xl * yl, xr * yr, (xl + xr) * (yl + yr), 2 * h, h) == vx * vy
  {
    var a, b, c := xl * yl, xr * yr, (xl + xr) * (yl + yr);
    assert 0 <= a && 0 <= b;
    assert c - a == xl * yr + xr * yl + xr * yr;
    assert 0 <= xl * yr && 0 <= xr * yl;
    assert AfterSubtraction(c, a) == a && AfterSubtraction(c - a, b) == b;
    CorrectedCombinationIsProduct(vx, vy, h, xl, xr, yl, yr, a, b, c);
  }

  /**
   * The number of levels of the recursion of multiply_karatsuba_big_numbers
   * on operands with nx, ny digits and values vx, vy at which the larger
   * digit count tam is odd, so that the shift by tam is not the shift by
   * 2 * half.
   */
  ghost function OddLevels(nx: int, vx: int, ny: int, vy: int): nat
    requires 1 <= nx && 1 <= ny && 0 <= vx && 0 <= vy
    decreases vx + vy, nx + ny, 1
  {
    if nx == 1 && ny == 1 then 0
    else
      var h := Max(nx, ny) / 2;
      var xl, xr, yl, yr := vx / Pow10(h), vx % Pow10(h), vy / Pow10(h), vy % Pow10(h);
      KaratsubaDecreases(nx, vx, ny, vy, h, xl, xr, yl, yr);
      OddLevelsParts(nx, vx, ny, vy, h, xl, xr, yl, yr)
  }

  /** OddLevels once the operands are split at h. */
  ghost function OddLevelsParts(nx: int, vx: int, ny: int, vy: int, h: int, xl: int, xr: int, yl: int, yr: int): nat
    requires SplitProgress(nx, vx, ny, vy, h, xl, xr, yl, yr)
    decreases vx + vy, nx + ny, 0
  {
    (if Max(nx, ny) % 2 == 1 then 1 else 0) +
    OddLevels(Len(xl), xl, Len(yl), yl) + OddLevels(h, xr, h, yr) + OddLevels(Len(xl + xr), xl + xr, Len(yl + yr), yl + yr)
  }

  /** One level of the recursion of OddLevels, with the split parts named. */
  lemma {:induction false} OddLevelsUnfold(nx: int, vx: int, ny: int, vy: int, h: int, xl: int, xr: int, yl: int, yr: int)
    requires 1 <= nx && 1 <= ny && 0 <= vx && 0 <= vy && !(nx == 1 && ny == 1) && h == Max(nx, ny) / 2
    requires xl == vx / Pow10(h) && xr == vx % Pow10(h) && yl == vy / Pow10(h) && yr == vy % Pow10(h)
    ensures SplitProgress(nx, vx, ny, vy, h, xl, xr, yl, yr)
    ensures OddLevels(nx, vx, ny, vy) == OddLevelsParts(nx, vx, ny, vy, h, xl, xr, yl, yr)
  {
    KaratsubaDecreases(nx, vx, ny, vy, h, xl, xr, yl, yr);
  }

  /** Below a level with no odd level under it, the three sub-products have none either, and tam is 2 * half. */
  lemma {:induction false} NoOddLevelsSplit(nx: int, vx: int, ny: int, vy: int, h: int, xl: int, xr: int, yl: int, yr: int)
    requires 1 <= nx && 1 <= ny && 0 <= vx && 0 <= vy && !(nx == 1 && ny == 1) && h == Max(nx, ny) / 2
    requires xl == vx / Pow10(h) && xr == vx % Pow10(h) && yl == vy / Pow10(h) && yr == vy % Pow10(h)
    requires OddLevels(nx, vx, ny, vy) == 0
    ensures SplitProgress(nx, vx, ny, vy, h, xl, xr, yl, yr) && Max(nx, ny) == 2 * h
    ensures OddLevels(Len(xl), xl, Len(yl), yl) == 0 && OddLevels(h, xr, h, yr) == 0
    ensures OddLevels(Len(xl + xr), xl + xr, Len(yl + yr), yl + yr) == 0
  {
    OddLevelsUnfold(nx, vx, ny, vy, h, xl, xr, yl, yr);
  }

  /** One level of KaratsubaEvenIsProduct: with tam = 2 * half, exact products of the parts recombine into the product. */
  lemma {:induction false} EvenStep(nx: int, vx: int, ny: int, vy: int, h: nat, xl: int, xr: int, yl: int, yr: int)
    requires 1 <= nx && 1 <= ny && 0 <= vx && 0 <= vy && !(nx == 1 && ny == 1) && h == Max(nx, ny) / 2
    requires xl == vx / Pow10(h) && xr == vx % Pow10(h) && yl == vy / Pow10(h) && yr == vy % Pow10(h)
    requires SplitProgress(nx, vx, ny, vy, h, xl, xr, yl, yr) && Max(nx, ny) == 2 * h
    requires KaratsubaValue(Len(xl), xl, Len(yl), yl) == xl * yl
    requires KaratsubaValue(h, xr, h, yr) == xr * yr
    requires KaratsubaValue(Len(xl + xr), xl + xr, Len(yl + yr), yl + yr) == (xl + xr) * (yl + yr)
    ensures KaratsubaValue(nx, vx, ny, vy) == vx * vy
  {
    KaratsubaValueUnfold(nx, vx, ny, vy, h, xl, xr, yl, yr);
    KaratsubaPartsUnfold(nx, vx, ny, vy, h, xl, xr, yl, yr);
    SplitValue(vx, Pow10(h), xl, xr);
    SplitValue(vy, Pow10(h), yl, yr);
    CombinationAtEvenLength(vx, vy, h, xl, xr, yl, yr);
  }

  /**
   * multiply_karatsuba_big_numbers as written computes the product whenever
   * the larger digit count is even at every level of its recursion.
   */
  lemma {:induction false} KaratsubaEvenIsProduct(nx: int, vx: int, ny: int, vy: int)
    requires 1 <= nx && 1 <= ny && 0 <= vx && 0 <= vy && OddLevels(nx, vx, ny, vy) == 0
    ensures KaratsubaValue(nx, vx, ny, vy) == vx * vy
    decreases vx + vy, nx + ny, 3
  {
    if !(nx == 1 && ny == 1) {
      var h := Max(nx, ny) / 2;
      var xl, xr, yl, yr := vx / Pow10(h), vx % Pow10(h), vy / Pow10(h), vy % Pow10(h);
      NoOddLevelsSplit(nx, vx, ny, vy, h, xl, xr, yl, yr);
      EvenPartsAreProducts(nx, vx, ny, vy, h, xl, xr, yl, yr, xl + xr, yl + yr);
      EvenStep(nx, vx, ny, vy, h, xl, xr, yl, yr);
    }
  }

  // The three sub-products of a split without odd levels below it are exact:
  // the high parts, then the low parts, then the sums sx and sy of the parts,
  // one recursive call per lemma.

  lemma {:induction false} EvenPartsAreProducts(nx: int, vx: int, ny: int, vy: int, h: int, xl: int, xr: int, yl: int, yr: int, sx: int, sy: int)
    requires SplitProgress(nx, vx, ny, vy, h, xl, xr, yl, yr) && sx == xl + xr && sy == yl + yr
    requires OddLevels(Len(xl), xl, Len(yl), yl) == 0 && OddLevels(h, xr, h, yr) == 0
    requires OddLevels(Len(sx), sx, Len(sy), sy) == 0
    ensures KaratsubaValue(Len(xl), xl, Len(yl), yl) == xl * yl
    ensures KaratsubaValue(h, xr, h, yr) == xr * yr
    ensures KaratsubaValue(Len(sx), sx, Len(sy), sy) == sx * sy
    decreases vx + vy, nx + ny, 2
  {
    KaratsubaEvenIsProduct(Len(xl), xl, Len(yl), yl);
    EvenLowPartsAreProducts(nx, vx, ny, vy, h, xl, xr, yl, yr, sx, sy);
  }

  lemma {:induction false} EvenLowPartsAreProducts(nx: int, vx: int, ny: int, vy: int, h: int, xl: int, xr: int, yl: int, yr: int, sx: int, sy: int)
    requires SplitProgress(nx, vx, ny, vy, h, xl, xr, yl, yr) && sx == xl + xr && sy == yl + yr
    requires OddLevels(h, xr, h, yr) == 0 && OddLevels(Len(sx), sx, Len(sy), sy) == 0
    ensures KaratsubaValue(h, xr, h, yr) == xr * yr
    ensures KaratsubaValue(Len(sx), sx, Len(sy), sy) == sx * sy
    decreases vx + vy, nx + ny, 1
  {
    KaratsubaEvenIsProduct(h, xr, h, yr);
    EvenSumsAreProducts(nx, vx, ny, vy, h, xl, xr, yl, yr, sx, sy);
  }

  lemma {:induction false} EvenSumsAreProducts(nx: int, vx: int, ny: int, vy: int, h: int, xl: int, xr: int, yl: int, yr: int, sx: int, sy: int)
    requires SplitProgress(nx, vx, ny, vy, h, xl, xr, yl, yr) && sx == xl + xr && sy == yl + yr
    requires OddLevels(Len(sx), sx, Len(sy), sy) == 0
    ensures KaratsubaValue(Len(sx), sx, Len(sy), sy) == sx * sy
    decreases vx + vy, nx + ny, 0
  {
    KaratsubaEvenIsProduct(Len(sx), sx, Len(sy), sy);
  }

  /** Two-digit operands: 12 times 34 has even digit counts at every level and gives 408. */
  lemma {:induction false} KaratsubaTwoByTwo()
    ensures OddLevels(2, 12, 2, 34) == 0 && KaratsubaValue(2, 12, 2, 34) == 408
  {
    SmallLengths();
    assert Len(2) == 1 && Len(3) == 1 && Len(4) == 1 && Len(7) == 1;
    OddLevelsUnfold(2, 12, 2, 34, 1, 1, 2, 3, 4);
    KaratsubaEvenIsProduct(2, 12, 2, 34);
  }

  // ---------------------------------------------------------------------------
  // The algorithm on BigNumber objects

  /** The text "10" that multiply_karatsuba_big_numbers turns into its base ten. */
  lemma {:induction false} TenText()
    ensures IsNumberText("10") && SignLength("10") == 0 && DigitValues("10"[0..]) == [1, 0]
    ensures Val([1, 0]) == 10
  {
    assert "10"[0..] == "10" && "10"[..1] == "1" && "1"[..0] == "";
    assert [1, 0][..1] == [1] && [1][..0] == [];
  }

  /**
   * One operand's split (bignumber.c:392-396): the high part is the operand
   * divided by 10^half, with the power from fast_exponentiation; the low
   * part is a copy of its last half digits, leading zeros included.
   */
  method SplitNumber(x: BigNumber, baseTen: BigNumber, exponent: BigNumber, half: nat)
    returns (left: BigNumber, right: BigNumber)
    requires x.NonEmpty() && x.isPositive && half <= x.numDigits
    requires baseTen.Valid() && baseTen.digits == [1, 0] && baseTen.isPositive && baseTen != exponent
    requires exponent.NonEmpty() && exponent.Normalised() && exponent.ParityValid() && exponent.isPositive
    requires Val(exponent.digits) == half && x != exponent
    modifies x, exponent
    ensures fresh(left) && fresh(right) && left != right
    ensures left.Valid() && left.Normalised() && left.isPositive && Val(left.digits) == Val(x.digits) / Pow10(half)
    ensures right.Valid() && right.isPositive && |right.digits| == half && Val(right.digits) == Val(x.digits) % Pow10(half)
    ensures x.digits == old(x.digits) && x.numDigits == old(x.numDigits) && x.isEven == old(x.isEven) && x.isPositive
    ensures exponent.digits == old(exponent.digits) && exponent.numDigits == old(exponent.numDigits)
    ensures exponent.isEven == old(exponent.isEven) && exponent.isPositive
  {
    left := HighPart(x, baseTen, exponent, half);
    right := CreateBigNumber("");
    assert ""[0..] == "" && right.digits == [];
    CopyBigNumber(right, x, half, true);
    assert right.digits == x.digits[|x.digits| - half..];
    ValSplit(x.digits, half);
  }

  /** x divided by 10^half, the power computed by fast_exponentiation (bignumber.c:392 and 395). */
  method HighPart(x: BigNumber, baseTen: BigNumber, exponent: BigNumber, ghost half: nat) returns (left: BigNumber)
    requires x.NonEmpty() && x.isPositive
    requires baseTen.Valid() && baseTen.digits == [1, 0] && baseTen.isPositive && baseTen != exponent
    requires exponent.NonEmpty() && exponent.Normalised() && exponent.ParityValid() && exponent.isPositive
    requires Val(exponent.digits) == half && x != exponent
    modifies x, exponent
    ensures fresh(left) && left.Valid() && left.Normalised() && left.isPositive
    ensures Val(left.digits) == Val(x.digits) / Pow10(half)
    ensures x.digits == old(x.digits) && x.numDigits == old(x.numDigits) && x.isEven == old(x.isEven) && x.isPositive
    ensures exponent.digits == old(exponent.digits) && exponent.numDigits == old(exponent.numDigits)
    ensures exponent.isEven == old(exponent.isEven) && exponent.isPositive
  {
    TenText();
    var power := FastExponentiation(baseTen, exponent);
    PowTen(half);
    assert Val(power.digits) == Pow10(half) >= 1;
    assert power.digits != [0];
    ghost var v := Val(x.digits);
    ValBounds(x.digits);
    assert power.isPositive && Signed(true, v) == v && Signed(true, Pow10(half)) == Pow10(half);
    left := DivideBigNumbers(x, power);
    TruncatedQuotientOfNatural(v, Pow10(half), left.Value());
  }

  /**
   * The recombination (bignumber.c:409-447): d = (c - a) - b, then
   * a * 10^tam + d * 10^half + b. The two subtractions also change the
   * signs of a and b, which the later products read.
   */
  method Combine(a: BigNumber, b: BigNumber, c: BigNumber, baseTen: BigNumber, tam: nat, half: nat)
    returns (result: BigNumber)
    requires a.NonEmpty() && a.Normalised() && b.NonEmpty() && b.Normalised() && c.NonEmpty() && c.Normalised()
    requires baseTen.Valid() && baseTen.digits == [1, 0] && baseTen.isPositive
    requires a != b && a != c && b != c && baseTen != a && baseTen != b && baseTen != c
    modifies a, b, c
    ensures fresh(result) && result.Valid() && result.Normalised()
    ensures result.Value() == Combination(old(a.Value()), old(b.Value()), old(c.Value()), tam, half)
  {
    ghost var va, vb, vc := a.Value(), b.Value(), c.Value();
    var d := Differences(a, b, c);
    ghost var wa, wb := a.Value(), b.Value();
    var high := ShiftedProduct(a, baseTen, tam);
    var middle := ShiftedProduct(d, baseTen, half);
    result := SumOfThree(high, middle, b);
    assert result.Value() == wa * Pow10(tam) + (vc - va - vb) * Pow10(half) + wb;
  }

  /** The two additions of bignumber.c:443-447, (high + middle) + b, on normalised operands. */
  method SumOfThree(high: BigNumber, middle: BigNumber, b: BigNumber) returns (result: BigNumber)
    requires high.NonEmpty() && Canonical(high.digits) && middle.NonEmpty() && Canonical(middle.digits)
    requires b.NonEmpty() && b.Normalised() && high != middle && high != b && middle != b
    modifies high, middle, b
    ensures fresh(result) && result.Valid() && result.Normalised()
    ensures result.Value() == old(high.Value()) + old(middle.Value()) + old(b.Value())
  {
    CanonicalOrderAgrees(high.digits, middle.digits);
    result := SumBigNumbers(high, middle);
    CanonicalOrderAgrees(result.digits, b.digits);
    result := SumBigNumbers(result, b);
  }

  /**
   * d = subtraction(subtraction(c, a), b) (bignumber.c:409-410), with the
   * sign each subtraction leaves on a and on b.
   */
  method Differences(a: BigNumber, b: BigNumber, c: BigNumber) returns (d: BigNumber)
    requires a.NonEmpty() && a.Normalised() && b.NonEmpty() && b.Normalised() && c.NonEmpty() && c.Normalised()
    requires a != b && a != c && b != c
    modifies a, b, c
    ensures fresh(d) && d.NonEmpty() && d.Normalised() && d.Value() == old(c.Value()) - old(a.Value()) - old(b.Value())
    ensures a.NonEmpty() && a.Normalised() && a.Value() == AfterSubtraction(old(c.Value()), old(a.Value()))
    ensures b.NonEmpty() && b.Normalised() && b.Value() == AfterSubtraction(old(c.Value()) - old(a.Value()), old(b.Value()))
  {
    NormalisedSign(a);
    NormalisedSign(b);
    NormalisedSign(c);
    CanonicalOrderAgrees(c.digits, a.digits);
    d := SubtractionBigNumbers(c, a);
    NormalisedSign(d);
    CanonicalOrderAgrees(d.digits, b.digits);
    d := SubtractionBigNumbers(d, b);
  }

  /** n * 10^k, with the power from fast_exponentiation on a fresh exponent k (bignumber.c:431-441). */
  method ShiftedProduct(n: BigNumber, baseTen: BigNumber, k: nat) returns (r: BigNumber)
    requires n.NonEmpty() && baseTen.Valid() && baseTen.digits == [1, 0] && baseTen.isPositive
    ensures fresh(r) && r.NonEmpty() && Canonical(r.digits)
    ensures r.isPositive == n.isPositive && r.Value() == n.Value() * Pow10(k)
  {
    TenText();
    var exponent := CreateFromNat(k);
    var power := FastExponentiation(baseTen, exponent);
    PowTen(k);
    r := MultiplyBigNumbers(n, power);
    CanonicalLength(r.digits);
  }

  /** KSafe for two digit sequences: multiply_karatsuba_big_numbers can run on them. */
  ghost predicate KSafeDigits(xs: seq<int>, ys: seq<int>)
    requires IsDigits(xs) && IsDigits(ys) && |xs| >= 1 && |ys| >= 1
  {
    ValBounds(xs);
    ValBounds(ys);
    KSafe(|xs|, Val(xs), |ys|, Val(ys))
  }

  /** KaratsubaValue for two digit sequences: what multiply_karatsuba_big_numbers computes from them. */
  ghost function KaratsubaDigits(xs: seq<int>, ys: seq<int>): int
    requires IsDigits(xs) && IsDigits(ys) && |xs| >= 1 && |ys| >= 1
  {
    ValBounds(xs);
    ValBounds(ys);
    KaratsubaValue(|xs|, Val(xs), |ys|, Val(ys))
  }

  /** OddLevels for two digit sequences. */
  ghost function OddLevelsDigits(xs: seq<int>, ys: seq<int>): nat
    requires IsDigits(xs) && IsDigits(ys) && |xs| >= 1 && |ys| >= 1
  {
    ValBounds(xs);
    ValBounds(ys);
    OddLevels(|xs|, Val(xs), |ys|, Val(ys))
  }

  /**
   * Digit sequences xls, xrs and yls, yrs are the high and low parts of xs
   * and ys split at h = half the larger digit count (bignumber.c:368-396):
   * the high parts without leading zeros, the low parts h digits long.
   */
  ghost predicate IsStepSplit(xs: seq<int>, ys: seq<int>, h: nat, xls: seq<int>, xrs: seq<int>, yls: seq<int>, yrs: seq<int>)
  {
    IsDigits(xs) && IsDigits(ys) && |xs| >= 1 && |ys| >= 1 && !(|xs| == 1 && |ys| == 1) && h == Max(|xs|, |ys|) / 2
    && IsDigits(xls) && IsDigits(yls) && IsDigits(xrs) && IsDigits(yrs) && |xrs| == h && |yrs| == h
    && Val(xls) == Val(xs) / Pow10(h) && Val(xrs) == Val(xs) % Pow10(h)
    && Val(yls) == Val(ys) / Pow10(h) && Val(yrs) == Val(ys) % Pow10(h)
    && 0 <= Val(xls) && |xls| == Len(Val(xls)) && 0 <= Val(yls) && |yls| == Len(Val(yls))
  }

  /**
   * KSafe of the sums sx = xr + xl and sy = yr + yl of the parts, with lx
   * and ly digits, on values; the product of the sums is on a smaller pair.
   */
  lemma {:induction false} SumsSafe(nx: int, vx: int, ny: int, vy: int, h: int, xl: int, xr: int, yl: int, yr: int, sx: int, sy: int, lx: int, ly: int)
    requires 1 <= nx && 1 <= ny && 0 <= vx && 0 <= vy && !(nx == 1 && ny == 1) && h == Max(nx, ny) / 2
    requires xl == vx / Pow10(h) && xr == vx % Pow10(h) && yl == vy / Pow10(h) && yr == vy % Pow10(h)
    requires KSafe(nx, vx, ny, vy)
    requires sx == xr + xl && sy == yr + yl && 0 <= sx && 0 <= sy && lx == Len(sx) && ly == Len(sy)
    ensures KSafe(lx, sx, ly, sy)
    ensures sx + sy < vx + vy || (sx + sy == vx + vy && lx + ly < nx + ny)
  {
    KSafeUnfold(nx, vx, ny, vy, h, xl, xr, yl, yr);
    assert sx == xl + xr && sy == yl + yr;
  }

  /** On KSafe operands, the split point half fits both operands (copy_big_number, auxiliar.c:327-341). */
  lemma {:induction false} HalfFits(xs: seq<int>, ys: seq<int>, h: nat)
    requires IsDigits(xs) && IsDigits(ys) && |xs| >= 1 && |ys| >= 1 && !(|xs| == 1 && |ys| == 1)
    requires h == Max(|xs|, |ys|) / 2 && KSafeDigits(xs, ys)
    ensures 1 <= h <= |xs| && h <= |ys|
  {
    ValBounds(xs);
    ValBounds(ys);
    var vx, vy := Val(xs), Val(ys);
    KSafeUnfold(|xs|, vx, |ys|, vy, h, vx / Pow10(h), vx % Pow10(h), vy / Pow10(h), vy % Pow10(h));
  }

  /**
   * On KSafe operands, the products of the high parts and of the low parts
   * are KSafe and on smaller pairs, and the split point fits both operands.
   */
  lemma {:induction false} StepSafety(xs: seq<int>, ys: seq<int>, h: nat, xls: seq<int>, xrs: seq<int>, yls: seq<int>, yrs: seq<int>)
    requires IsStepSplit(xs, ys, h, xls, xrs, yls, yrs) && KSafeDigits(xs, ys)
    ensures 1 <= h <= |xs| && h <= |ys| && |xls| >= 1 && |yls| >= 1
    ensures KSafeDigits(xls, yls) && KSafeDigits(xrs, yrs)
    ensures Val(xls) + Val(yls) < Val(xs) + Val(ys) || (Val(xls) + Val(yls) == Val(xs) + Val(ys) && |xls| + |yls| < |xs| + |ys|)
    ensures Val(xrs) + Val(yrs) <= Val(xs) + Val(ys) && |xrs| + |yrs| < |xs| + |ys|
  {
    ValBounds(xs);
    ValBounds(ys);
    KSafeUnfold(|xs|, Val(xs), |ys|, Val(ys), h, Val(xls), Val(xrs), Val(yls), Val(yrs));
  }

  /**
   * On KSafe operands, the product of the sums of the parts is KSafe and on
   * a smaller pair, for sums sxs and sys without leading zeros.
   */
  lemma {:induction false} StepSumSafety(xs: seq<int>, ys: seq<int>, h: nat, xls: seq<int>, xrs: seq<int>, yls: seq<int>, yrs: seq<int>, sxs: seq<int>, sys: seq<int>)
    requires IsStepSplit(xs, ys, h, xls, xrs, yls, yrs) && KSafeDigits(xs, ys)
    requires IsDigits(sxs) && IsDigits(sys) && |sxs| >= 1 && |sys| >= 1
    requires Val(sxs) == Val(xrs) + Val(xls) && 0 <= Val(sxs) && |sxs| == Len(Val(sxs))
    requires Val(sys) == Val(yrs) + Val(yls) && 0 <= Val(sys) && |sys| == Len(Val(sys))
    ensures KSafeDigits(sxs, sys)
    ensures Val(sxs) + Val(sys) < Val(xs) + Val(ys) || (Val(sxs) + Val(sys) == Val(xs) + Val(ys) && |sxs| + |sys| < |xs| + |ys|)
  {
    ValBounds(xs);
    ValBounds(ys);
    SumsSafe(|xs|, Val(xs), |ys|, Val(ys), h, Val(xls), Val(xrs), Val(yls), Val(yrs), Val(sxs), Val(sys), |sxs|, |sys|);
  }

  /**
   * One level of KaratsubaValue on digit sequences: the value for xs, ys is
   * the Combination of the values for the high parts, the low parts and the
   * sums of the parts.
   */
  lemma {:induction false} StepValue(xs: seq<int>, ys: seq<int>, h: nat, xls: seq<int>, xrs: seq<int>, yls: seq<int>, yrs: seq<int>, sxs: seq<int>, sys: seq<int>)
    requires IsStepSplit(xs, ys, h, xls, xrs, yls, yrs) && |xls| >= 1 && |yls| >= 1 && h >= 1
    requires IsDigits(sxs) && IsDigits(sys) && |sxs| >= 1 && |sys| >= 1
    requires Val(sxs) == Val(xrs) + Val(xls) && 0 <= Val(sxs) && |sxs| == Len(Val(sxs))
    requires Val(sys) == Val(yrs) + Val(yls) && 0 <= Val(sys) && |sys| == Len(Val(sys))
    ensures KaratsubaDigits(xs, ys)
      == Combination(KaratsubaDigits(xls, yls), KaratsubaDigits(xrs, yrs), KaratsubaDigits(sxs, sys), Max(|xs|, |ys|), h)
  {
    ValBounds(xs);
    ValBounds(ys);
    var xl, xr, yl, yr := Val(xls), Val(xrs), Val(yls), Val(yrs);
    KaratsubaValueUnfold(|xs|, Val(xs), |ys|, Val(ys), h, xl, xr, yl, yr);
    assert Val(sxs) == xl + xr && Val(sys) == yl + yr;
  }

  /**
   * multiply_karatsuba_big_numbers (bignumber.c:356-463) on non-negative
   * operands: the one-digit base case is multiply_big_numbers, otherwise
   * KaratsubaStep. The operands keep their digits and stay positive.
   */
  method MultiplyKaratsuba(x: BigNumber, y: BigNumber) returns (result: BigNumber)
    requires x.NonEmpty() && y.NonEmpty() && x.isPositive && y.isPositive
    requires KSafeDigits(x.digits, y.digits)
    modifies x, y
    decreases Val(x.digits) + Val(y.digits), x.numDigits + y.numDigits, 3
    ensures x.digits == old(x.digits) && x.numDigits == old(x.numDigits) && x.isEven == old(x.isEven) && x.isPositive
    ensures y.digits == old(y.digits) && y.numDigits == old(y.numDigits) && y.isEven == old(y.isEven) && y.isPositive
    ensures fresh(result) && result.Valid() && result.Normalised()
    ensures result.Value() == KaratsubaDigits(x.digits, y.digits)
    ensures OddLevelsDigits(x.digits, y.digits) == 0 ==> result.Value() == x.Value() * y.Value()
  {
    ValBounds(x.digits);
    ValBounds(y.digits);
    if OddLevelsDigits(x.digits, y.digits) == 0 {
      KaratsubaEvenIsProduct(x.numDigits, Val(x.digits), y.numDigits, Val(y.digits));
    }
    if x.numDigits == 1 && y.numDigits == 1 {
      result := MultiplyBigNumbers(x, y);
    } else {
      result := KaratsubaStep(x, y);
    }
  }

  /** The recursive case of multiply_karatsuba_big_numbers (bignumber.c:366-447). */
  method KaratsubaStep(x: BigNumber, y: BigNumber) returns (result: BigNumber)
    requires x.NonEmpty() && y.NonEmpty() && x.isPositive && y.isPositive && !(x.numDigits == 1 && y.numDigits == 1)
    requires KSafeDigits(x.digits, y.digits)
    modifies x, y
    decreases Val(x.digits) + Val(y.digits), x.numDigits + y.numDigits, 2
    ensures x.digits == old(x.digits) && x.numDigits == old(x.numDigits) && x.isEven == old(x.isEven) && x.isPositive
    ensures y.digits == old(y.digits) && y.numDigits == old(y.numDigits) && y.isEven == old(y.isEven) && y.isPositive
    ensures fresh(result) && result.Valid() && result.Normalised()
    ensures result.Value() == KaratsubaDigits(x.digits, y.digits)
  {
    ghost var xs, ys := x.digits, y.digits;
    var tam := if x.numDigits > y.numDigits then x.numDigits else y.numDigits;
    var half := tam / 2;
    var baseTen := CreateBigNumber("10");
    TenText();
    HalfFits(xs, ys, half);
    var xLeft, xRight, yLeft, yRight := SplitOperands(x, y, baseTen, half);
    result := MultiplyParts(xLeft, xRight, yLeft, yRight, baseTen, tam, half, xs, ys);
  }

  /**
   * The three recursive products of the parts of xs and ys and their
   * recombination (bignumber.c:406-447).
   */
  method MultiplyParts(xLeft: BigNumber, xRight: BigNumber, yLeft: BigNumber, yRight: BigNumber, baseTen: BigNumber,
                       tam: nat, half: nat, ghost xs: seq<int>, ghost ys: seq<int>)
    returns (result: BigNumber)
    requires IsStepSplit(xs, ys, half, xLeft.digits, xRight.digits, yLeft.digits, yRight.digits) && KSafeDigits(xs, ys)
    requires tam == Max(|xs|, |ys|)
    requires xLeft.NonEmpty() && xLeft.isPositive && yLeft.NonEmpty() && yLeft.isPositive
    requires xRight.Valid() && xRight.isPositive && yRight.Valid() && yRight.isPositive
    requires xLeft != xRight && xLeft != yLeft && xLeft != yRight && xRight != yLeft && xRight != yRight && yLeft != yRight
    requires baseTen.Valid() && baseTen.digits == [1, 0] && baseTen.isPositive
    requires baseTen != xLeft && baseTen != xRight && baseTen != yLeft && baseTen != yRight
    modifies xLeft, xRight, yLeft, yRight
    decreases Val(xs) + Val(ys), |xs| + |ys|, 1
    ensures fresh(result) && result.Valid() && result.Normalised()
    ensures result.Value() == KaratsubaDigits(xs, ys)
  {
    ghost var xls, xrs, yls, yrs := xLeft.digits, xRight.digits, yLeft.digits, yRight.digits;
    StepSafety(xs, ys, half, xls, xrs, yls, yrs);
    var a := MultiplyKaratsuba(xLeft, yLeft);
    var b := MultiplyKaratsuba(xRight, yRight);
    ghost var sxs, sys;
    var c;
    c, sxs, sys := ProductOfSums(xLeft, xRight, yLeft, yRight, half, xs, ys);
    StepValue(xs, ys, half, xls, xrs, yls, yrs, sxs, sys);
    result := Combine(a, b, c, baseTen, tam, half);
  }

  /**
   * The third recursive product, of the sums of the parts (bignumber.c:408);
   * sxs and sys are the digits of the two sums.
   */
  method ProductOfSums(xLeft: BigNumber, xRight: BigNumber, yLeft: BigNumber, yRight: BigNumber,
                       half: nat, ghost xs: seq<int>, ghost ys: seq<int>)
    returns (c: BigNumber, ghost sxs: seq<int>, ghost sys: seq<int>)
    requires IsStepSplit(xs, ys, half, xLeft.digits, xRight.digits, yLeft.digits, yRight.digits) && KSafeDigits(xs, ys)
    requires xLeft.NonEmpty() && xLeft.isPositive && yLeft.NonEmpty() && yLeft.isPositive
    requires xRight.NonEmpty() && xRight.isPositive && yRight.NonEmpty() && yRight.isPositive
    requires xLeft != xRight && xLeft != yLeft && xLeft != yRight && xRight != yLeft && xRight != yRight && yLeft != yRight
    modifies xLeft, xRight, yLeft, yRight
    decreases Val(xs) + Val(ys), |xs| + |ys|, 0
    ensures fresh(c) && c.Valid() && c.Normalised()
    ensures IsDigits(sxs) && IsDigits(sys) && |sxs| >= 1 && |sys| >= 1
    ensures Val(sxs) == Val(old(xRight.digits)) + Val(old(xLeft.digits)) && 0 <= Val(sxs) && |sxs| == Len(Val(sxs))
    ensures Val(sys) == Val(old(yRight.digits)) + Val(old(yLeft.digits)) && 0 <= Val(sys) && |sys| == Len(Val(sys))
    ensures c.Value() == KaratsubaDigits(sxs, sys)
  {
    ghost var xls, xrs, yls, yrs := xLeft.digits, xRight.digits, yLeft.digits, yRight.digits;
    var sumX := SumOfParts(xRight, xLeft);
    var sumY := SumOfParts(yRight, yLeft);
    sxs, sys := sumX.digits, sumY.digits;
    StepSumSafety(xs, ys, half, xls, xrs, yls, yrs, sxs, sys);
    c := MultiplyKaratsuba(sumX, sumY);
  }

  /**
   * Both operands split at half (bignumber.c:373-396), the exponent half
   * shared by the two divisions; the high parts have no leading zeros.
   */
  method SplitOperands(x: BigNumber, y: BigNumber, baseTen: BigNumber, half: nat)
    returns (xLeft: BigNumber, xRight: BigNumber, yLeft: BigNumber, yRight: BigNumber)
    requires x.NonEmpty() && y.NonEmpty() && x.isPositive && y.isPositive && half <= x.numDigits && half <= y.numDigits
    requires baseTen.Valid() && baseTen.digits == [1, 0] && baseTen.isPositive
    modifies x, y
    ensures x.digits == old(x.digits) && x.numDigits == old(x.numDigits) && x.isEven == old(x.isEven) && x.isPositive
    ensures y.digits == old(y.digits) && y.numDigits == old(y.numDigits) && y.isEven == old(y.isEven) && y.isPositive
    ensures fresh(xLeft) && fresh(xRight) && fresh(yLeft) && fresh(yRight)
    ensures xLeft != xRight && xLeft != yLeft && xLeft != yRight && xRight != yLeft && xRight != yRight && yLeft != yRight
    ensures xLeft.Valid() && xLeft.Normalised() && xLeft.isPositive && 0 <= Val(x.digits) / Pow10(half) && |xLeft.digits| == Len(Val(x.digits) / Pow10(half))
    ensures yLeft.Valid() && yLeft.Normalised() && yLeft.isPositive && 0 <= Val(y.digits) / Pow10(half) && |yLeft.digits| == Len(Val(y.digits) / Pow10(half))
    ensures Val(xLeft.digits) == Val(x.digits) / Pow10(half) && Val(yLeft.digits) == Val(y.digits) / Pow10(half)
    ensures xRight.Valid() && xRight.isPositive && |xRight.digits| == half && Val(xRight.digits) == Val(x.digits) % Pow10(half)
    ensures yRight.Valid() && yRight.isPositive && |yRight.digits| == half && Val(yRight.digits) == Val(y.digits) % Pow10(half)
  {
    var exponent := CreateFromNat(half);
    xLeft, xRight := SplitNumber(x, baseTen, exponent, half);
    yLeft, yRight := SplitNumber(y, baseTen, exponent, half);
    CanonicalLength(xLeft.digits);
    CanonicalLength(yLeft.digits);
  }

  /** sum_big_numbers of two non-negative parts (bignumber.c:408): a normalised, non-negative sum. */
  method SumOfParts(right: BigNumber, left: BigNumber) returns (s: BigNumber)
    requires right.NonEmpty() && left.NonEmpty() && right.isPositive && left.isPositive
    modifies right, left
    ensures right.NonEmpty() && right.digits == old(right.digits) && right.isPositive
    ensures left.NonEmpty() && left.digits == old(left.digits) && left.isPositive
    ensures fresh(s) && s.NonEmpty() && s.Normalised() && s.isPositive
    ensures Val(s.digits) == Val(right.digits) + Val(left.digits) && 0 <= Val(s.digits) && |s.digits| == Len(Val(s.digits))
  {
    s := SumBigNumbers(right, left);
    NormalisedSign(s);
    CanonicalLength(s.digits);
  }
}
