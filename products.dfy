/**
 * Schoolbook multiplication and long division of BigNumber records.
 *
 * multiply_big_numbers fills a result of |x| + |y| zero digits and adds
 * every digit product into it in place, one row of y per digit of x;
 * divide_big_numbers brings down one digit of the dividend at a time and
 * subtracts the divisor while it fits.
 */
module Products {
  import opened Digits
  import opened Numbers
  import opened Arithmetic

  // ---------------------------------------------------------------------
  // Multiplication
  // ---------------------------------------------------------------------

  /** k zero digits. */
  function Zeros(k: nat): (z: seq<int>)
    ensures |z| == k && IsDigits(z) && Val(z) == 0
    ensures forall c :: 0 <= c < k ==> z[c] == 0
  {
    if k == 0 then [] else Zeros(k - 1) + [0]
  }

  /** A product of two decimal digits is at most 81. */
  lemma {:induction false} DigitProduct(a: int, b: int)
    requires 0 <= a <= 9 && 0 <= b <= 9
    ensures 0 <= a * b <= 81
  {
    MulMonotone(a, 9, b);
    MulMonotone(b, 9, 9);
  }

  /**
   * The cells while a row for digit i of x is added: every cell is a
   * decimal digit except the current one, which may hold a digit plus a
   * carry (up to 18) until the row is done; the cells before i are 0, and
   * so is cell i until the row reaches it.
   */
  ghost predicate RowCells(ds: seq<int>, cur: int, i: int, done: bool)
  {
    0 <= i <= cur < |ds| && (done <==> cur == i) &&
    (forall k :: 0 <= k < |ds| && k != cur ==> 0 <= ds[k] <= 9) &&
    0 <= ds[cur] <= (if done then 9 else 18) &&
    (!done ==> ds[i] == 0) &&
    (forall k :: 0 <= k < i ==> ds[k] == 0)
  }

  /**
   * One cell of a row: the cell's content plus the digit product xi * yj
   * is written back as its last decimal digit, and the rest is added to the
   * cell on the left, which becomes the current one. The cells keep their
   * bounds and the value grows by the product at the cell's place.
   */
  lemma {:induction false} CellUpdate(ds: seq<int>, cur: int, i: int, xi: int, yj: int, product: int, next: seq<int>)
    requires RowCells(ds, cur, i, false) && 0 <= xi <= 9 && 0 <= yj <= 9
    requires product == xi * yj + ds[cur]
    requires next == ds[cur := product % 10][cur - 1 := ds[cur := product % 10][cur - 1] + product / 10]
    ensures RowCells(next, cur - 1, i, cur - 1 == i)
    ensures Val(next) == Val(ds) + xi * yj * Pow10(|ds| - 1 - cur)
  {
    CellDigits(ds, cur, i, xi, yj, product, next);
    DigitProduct(xi, yj);
    CellWorth(ds, cur, xi * yj, product, next);
  }

  /** The cells of CellUpdate keep their bounds. */
  lemma {:induction false} CellDigits(ds: seq<int>, cur: int, i: int, xi: int, yj: int, product: int, next: seq<int>)
    requires RowCells(ds, cur, i, false) && 0 <= xi <= 9 && 0 <= yj <= 9
    requires product == xi * yj + ds[cur]
    requires next == ds[cur := product % 10][cur - 1 := ds[cur := product % 10][cur - 1] + product / 10]
    ensures RowCells(next, cur - 1, i, cur - 1 == i)
  {
    DigitProduct(xi, yj);
  }

  /** The value of CellUpdate grows by the digit product at the cell's weight. */
  lemma {:induction false} CellWorth(ds: seq<int>, cur: int, xy: int, product: int, next: seq<int>)
    requires 0 < cur < |ds| && product == xy + ds[cur] && product >= 0
    requires next == ds[cur := product % 10][cur - 1 := ds[cur := product % 10][cur - 1] + product / 10]
    ensures Val(next) == Val(ds) + xy * Pow10(|ds| - 1 - cur)
  {
    var middle := ds[cur := product % 10];
    ValUpdate(ds, cur, product % 10);
    ValUpdate(middle, cur - 1, middle[cur - 1] + product / 10);
    assert Pow10(|ds| - 1 - (cur - 1)) == 10 * Pow10(|ds| - 1 - cur);
    CellValue(Val(ds), Val(middle), Val(next), product, ds[cur], xy, Pow10(|ds| - 1 - cur));
  }

  /** The two cell writes of CellUpdate add the digit product at the cell's weight w. */
  lemma {:induction false} CellValue(v: int, vm: int, vn: int, product: int, c: int, xy: int, w: int)
    requires product == xy + c && product >= 0
    requires vm == v + (product % 10 - c) * w
    requires vn == vm + (product / 10) * (10 * w)
    ensures vn == v + xy * w
  {
    assert (product / 10) * (10 * w) == (10 * (product / 10)) * w;
    assert vn == v + (10 * (product / 10) + product % 10 - c) * w;
  }

  /** The place of digit j of y in the row of digit i of x, in a result of len cells. */
  lemma {:induction false} RowWeight(len: int, ny: int, i: int, j: int, cur: int)
    requires 0 <= i && 0 <= j < ny && ny + i < len && cur == i + 1 + j
    ensures Pow10(len - 1 - cur) == Pow10(len - ny - 1 - i) * Pow10(ny - 1 - j)
  {
    Pow10Add(len - ny - 1 - i, ny - 1 - j);
  }

  /** Digit j of y at the place of x's digit i adds xi * yj at weight w = 10^(|x|-1-i) * 10^(|y|-1-j). */
  lemma {:induction false} RowValue(vd: int, vd2: int, v0: int, xi: int, yj: int, w: int, py: int, p: int, vyj: int, vyj1: int)
    requires vd2 == vd + xi * yj * w && w == p * py
    requires vyj == yj * py + vyj1
    requires vd == v0 + xi * vyj1 * p
    ensures vd2 == v0 + xi * vyj * p
  {
    calc {
      vd2;
      v0 + xi * vyj1 * p + xi * yj * (p * py);
      v0 + xi * (vyj1 + yj * py) * p;
    }
  }

  /** RowValue with the weights written as the powers of ten of the cell places. */
  lemma {:induction false} RowValueStep(vd: int, vd2: int, v0: int, xi: int, yj: int, vyj: int, vyj1: int,
                     len: int, ny: int, i: int, j: int, cur: int)
    requires 0 <= i && 0 <= j < ny && ny + i < len && cur == i + 1 + j
    requires vd2 == vd + xi * yj * Pow10(len - 1 - cur)
    requires vyj == yj * Pow10(ny - 1 - j) + vyj1
    requires vd == v0 + xi * vyj1 * Pow10(len - ny - 1 - i)
    ensures vd2 == v0 + xi * vyj * Pow10(len - ny - 1 - i)
  {
    RowWeight(len, ny, i, j, cur);
    RowValue(vd, vd2, v0, xi, yj, Pow10(len - 1 - cur), Pow10(ny - 1 - j), Pow10(len - ny - 1 - i), vyj, vyj1);
  }

  /**
   * The loop invariant of a row survives one cell: with digit j of y added
   * in, the result holds xi times the digits of y from j on, at the place
   * of x's digit i.
   */
  lemma {:induction false} RowCellStep(ds: seq<int>, cur: int, i: int, xi: int, ys: seq<int>, j: int, v0: int, product: int, next: seq<int>)
    requires RowCells(ds, cur, i, false) && 0 <= xi <= 9 && IsDigits(ys)
    requires 0 <= j < |ys| && cur == i + 1 + j && |ys| + i < |ds|
    requires Val(ds) == v0 + xi * Val(ys[j + 1..]) * Pow10(|ds| - |ys| - 1 - i)
    requires product == xi * ys[j] + ds[cur]
    requires next == ds[cur := product % 10][cur - 1 := ds[cur := product % 10][cur - 1] + product / 10]
    ensures RowCells(next, cur - 1, i, j == 0)
    ensures Val(next) == v0 + xi * Val(ys[j..]) * Pow10(|ds| - |ys| - 1 - i)
  {
    CellUpdate(ds, cur, i, xi, ys[j], product, next);
    ValSuffixStep(ys, j);
    RowValueStep(Val(ds), Val(next), v0, xi, ys[j], Val(ys[j..]), Val(ys[j + 1..]), |ds|, |ys|, i, j, cur);
  }

  /**
   * The inner loop of multiply_big_numbers for digit i of x: from the
   * cell `extremity` (the place of x's digit i times y's last digit)
   * towards the first cell, add each digit product and the cell's content,
   * keep the last decimal digit in the cell and add the rest to the cell
   * on its left. The cells before i are 0 and stay 0, and every cell ends
   * up a decimal digit again.
   */
  method AccumulateRow(x: BigNumber, y: BigNumber, r: BigNumber, i: int, extremity: int)
    requires x.NonEmpty() && y.NonEmpty() && r != x && r != y
    requires 0 <= i < |x.digits| && extremity == |y.digits| + i
    requires r.numDigits == |r.digits| == |x.digits| + |y.digits| && IsDigits(r.digits)
    requires forall k :: 0 <= k <= i ==> r.digits[k] == 0
    modifies r
    ensures r.numDigits == |r.digits| == |x.digits| + |y.digits| && IsDigits(r.digits)
    ensures r.isPositive == old(r.isPositive) && r.isEven == old(r.isEven)
    ensures forall k :: 0 <= k < i ==> r.digits[k] == 0
    ensures Val(r.digits) == old(Val(r.digits)) + x.digits[i] * Val(y.digits) * Pow10(|x.digits| - 1 - i)
  {
    ghost var xi, ys, v0, len := x.digits[i], y.digits, Val(r.digits), |r.digits|;
    ghost var p := Pow10(len - |ys| - 1 - i);
    var currentDecimalMagnitude := extremity;
    var j := y.numDigits - 1;
    assert ys[j + 1..] == [];
    while j >= 0
      invariant -1 <= j < |ys| && currentDecimalMagnitude == i + 1 + j
      invariant r.numDigits == |r.digits| == len && r.isPositive == old(r.isPositive) && r.isEven == old(r.isEven)
      invariant RowCells(r.digits, currentDecimalMagnitude, i, j < 0)
      invariant Val(r.digits) == v0 + xi * Val(ys[j + 1..]) * p
    {
      var digitI, digitJ := x.digits[i], y.digits[j];
      ghost var before, cell := r.digits, currentDecimalMagnitude;
      var product := digitI * digitJ + r.digits[currentDecimalMagnitude];
      r.digits := r.digits[currentDecimalMagnitude := product % 10];
      currentDecimalMagnitude := currentDecimalMagnitude - 1;
      r.digits := r.digits[currentDecimalMagnitude := r.digits[currentDecimalMagnitude] + product / 10];
      RowCellStep(before, cell, i, digitI, ys, j, v0, product, r.digits);
      j := j - 1;
    }
    assert j == -1 && ys[j + 1..] == ys;
  }

  /** Bringing in digit i of x adds that digit's share of the product. */
  lemma {:induction false} RowStep(vi: int, vi1: int, xi: int, pw: int, vy: int, before: int, after: int)
    requires vi == xi * pw + vi1 && before == vi1 * vy && after == before + xi * vy * pw
    ensures after == vi * vy
  {
  }

  /**
   * The outer loop of multiply_big_numbers: for each digit of x from the
   * last, one row of products is added in (AccumulateRow), one cell further
   * to the left each time. Starting from zeros, the result holds the
   * product of the two values.
   */
  method AccumulateRows(x: BigNumber, y: BigNumber, r: BigNumber)
    requires x.NonEmpty() && y.NonEmpty() && r != x && r != y
    requires r.numDigits == |x.digits| + |y.digits| && r.digits == Zeros(r.numDigits)
    modifies r
    ensures r.numDigits == |r.digits| == |x.digits| + |y.digits| && IsDigits(r.digits)
    ensures r.isPositive == old(r.isPositive) && r.isEven == old(r.isEven)
    ensures Val(r.digits) == Val(x.digits) * Val(y.digits)
  {
    var resultLength := x.numDigits + y.numDigits;
    ghost var xs, vy := x.digits, Val(y.digits);
    var resultExtremity := resultLength - 1;
    var i := x.numDigits - 1;
    assert xs[i + 1..] == [];
    while i >= 0
      invariant -1 <= i < |xs| && resultExtremity == |y.digits| + i
      invariant r.numDigits == |r.digits| == resultLength && IsDigits(r.digits)
      invariant r.isPositive == old(r.isPositive) && r.isEven == old(r.isEven)
      invariant forall k :: 0 <= k <= i ==> r.digits[k] == 0
      invariant Val(r.digits) == Val(xs[i + 1..]) * vy
    {
      ghost var before := Val(r.digits);
      AccumulateRow(x, y, r, i, resultExtremity);
      ValSuffixStep(xs, i);
      RowStep(Val(xs[i..]), Val(xs[i + 1..]), xs[i], Pow10(|xs| - 1 - i), vy, before, Val(r.digits));
      resultExtremity := resultExtremity - 1;
      i := i - 1;
    }
    assert i == -1 && xs[i + 1..] == xs;
    assert Val(r.digits) == Val(xs) * vy;
  }

  /** The sign of a product of signed values follows from the two sign bits. */
  lemma {:induction false} SignedProduct(px: bool, py: bool, a: int, b: int)
    ensures Signed(px == py, a * b) == Signed(px, a) * Signed(py, b)
  {
  }

  /**
   * multiply_big_numbers: |x| + |y| zero digits, one row of products per
   * digit of x from the last, then the leading zeros are dropped and the
   * sign is set to whether the signs agree. The sign is set after the zeros
   * are dropped, so a zero product of operands with opposite signs comes out
   * as a negative zero. The parity cache is not set.
   */
  method MultiplyBigNumbers(x: BigNumber, y: BigNumber) returns (r: BigNumber)
    requires x.NonEmpty() && y.NonEmpty()
    ensures fresh(r) && r.Valid() && Canonical(r.digits)
    ensures Val(r.digits) == Val(x.digits) * Val(y.digits)
    ensures r.isPositive == (x.isPositive == y.isPositive)
    ensures r.Value() == x.Value() * y.Value()
  {
    r := new BigNumber();
    var resultSign := x.isPositive == y.isPositive;
    var resultLength := x.numDigits + y.numDigits;
    for k := 0 to resultLength
      invariant r.digits == Zeros(k) && r.numDigits == k
    {
      AddNodeToBigNumber(r, 0, false);
      assert [0] + Zeros(k) == Zeros(k + 1);
    }
    AccumulateRows(x, y, r);
    ghost var product := Val(r.digits);
    RemoveZerosFromLeft(r);
    assert Val(r.digits) == product;
    r.isPositive := resultSign;
    SignedProduct(x.isPositive, y.isPositive, Val(x.digits), Val(y.digits));
  }

  // ---------------------------------------------------------------------
  // Division
  // ---------------------------------------------------------------------

  /**
   * How many times d can be taken away from t before what is left drops
   * below d: the quotient digit the digit loop counts.
   */
  function FitCount(t: int, d: int): nat
    requires d > 0
    decreases t
  {
    if t < d then 0 else 1 + FitCount(t - d, d)
  }

  /** What is left of t once d has been taken away FitCount(t, d) times. */
  function FitRest(t: int, d: int): int
    requires d > 0
    decreases t
  {
    if t < d then t else FitRest(t - d, d)
  }

  /** One more multiple of d. */
  lemma {:induction false} MulSucc(c: int, d: int)
    ensures (c + 1) * d == c * d + d
  {
  }

  /** Repeated subtraction divides: FitCount and FitRest are a quotient and remainder of t by d. */
  lemma {:induction false} FitIsDivision(t: int, d: int)
    requires d > 0 && t >= 0
    ensures FitCount(t, d) * d + FitRest(t, d) == t && 0 <= FitRest(t, d) < d
    decreases t
  {
    if t >= d {
      FitIsDivision(t - d, d);
      MulSucc(FitCount(t - d, d), d);
    }
  }

  /** So they are t / d and t % d. */
  lemma {:induction false} FitIsDivMod(t: int, d: int)
    requires d > 0 && t >= 0
    ensures FitCount(t, d) == t / d && FitRest(t, d) == t % d
  {
    FitIsDivision(t, d);
    DivModUnique(t, d, FitCount(t, d), FitRest(t, d));
  }

  /** Below 10 d, d fits at most 9 times: the count is a decimal digit. */
  lemma {:induction false} FitCountDigit(t: int, d: int)
    requires d > 0 && 0 <= t < 10 * d
    ensures FitCount(t, d) <= 9
  {
    FitIsDivision(t, d);
    CountBound(FitCount(t, d), d, t, FitRest(t, d));
  }

  /**
   * Schoolbook long division of the digits xs by d > 0, one digit at a
   * time from the first: the quotient digits and the final remainder. Each
   * step brings the next digit down next to the remainder and divides.
   */
  ghost function LongDivision(xs: seq<int>, d: int): (seq<int>, int)
    requires d > 0
  {
    if |xs| == 0 then ([], 0)
    else
      var prefix := LongDivision(xs[..|xs| - 1], d);
      var t := prefix.1 * 10 + xs[|xs| - 1];
      (prefix.0 + [FitCount(t, d)], FitRest(t, d))
  }

  /** Long division of one more digit, the k-th, is one more step after long division of the first k. */
  lemma {:induction false} LongDivisionStep(xs: seq<int>, k: int, d: int)
    requires d > 0 && 0 <= k < |xs|
    ensures LongDivision(xs[..k + 1], d) ==
      (LongDivision(xs[..k], d).0 + [FitCount(LongDivision(xs[..k], d).1 * 10 + xs[k], d)],
       FitRest(LongDivision(xs[..k], d).1 * 10 + xs[k], d))
  {
    assert xs[..k + 1][..k] == xs[..k];
  }

  /** One step of long division keeps quotient * d + remainder equal to the value divided. */
  lemma {:induction false} DivisionStep(vq: int, r: int, d: int, vp: int, x: int, t: int, c: int, rest: int)
    requires vq * d + r == vp && t == r * 10 + x && c * d + rest == t
    ensures (vq * 10 + c) * d + rest == vp * 10 + x
  {
    assert (vq * 10 + c) * d == (vq * d) * 10 + c * d;
  }

  /** One column of long division: the invariant quotient * d + remainder == value is kept. */
  lemma {:induction false} DivisionColumn(q: seq<int>, r: int, d: int, p: seq<int>, x: int)
    requires d > 0 && IsDigits(q) && 0 <= r < d && Val(q) * d + r == Val(p) && 0 <= x <= 9
    ensures IsDigits(q + [FitCount(r * 10 + x, d)]) && 0 <= FitRest(r * 10 + x, d) < d
    ensures Val(q + [FitCount(r * 10 + x, d)]) * d + FitRest(r * 10 + x, d) == Val(p + [x])
  {
    var t := r * 10 + x;
    BroughtDownBound(r, x, d);
    FitCountDigit(t, d);
    FitIsDivision(t, d);
    ValAppend(q, FitCount(t, d));
    ValAppend(p, x);
    DivisionStep(Val(q), r, d, Val(p), x, t, FitCount(t, d), FitRest(t, d));
  }

  /**
   * Long division computes the floor quotient: as many digits as xs, each a
   * decimal digit, and a remainder below d with quotient * d + remainder
   * equal to the value of xs.
   */
  lemma {:induction false} LongDivisionIsDivision(xs: seq<int>, d: int)
    requires d > 0 && IsDigits(xs)
    ensures |LongDivision(xs, d).0| == |xs| && IsDigits(LongDivision(xs, d).0)
    ensures 0 <= LongDivision(xs, d).1 < d
    ensures Val(LongDivision(xs, d).0) * d + LongDivision(xs, d).1 == Val(xs)
  {
    if |xs| == 0 {
      assert LongDivision(xs, d) == ([], 0);
    } else {
      var k := |xs| - 1;
      var p, x := xs[..k], xs[k];
      LongDivisionIsDivision(p, d);
      var prefix := LongDivision(p, d);
      var t := prefix.1 * 10 + x;
      var q, r := prefix.0 + [FitCount(t, d)], FitRest(t, d);
      assert LongDivision(xs, d) == (q, r);
      DivisionColumn(prefix.0, prefix.1, d, p, x);
      assert p + [x] == xs;
      assert |q| == |xs| && IsDigits(q) && 0 <= r < d && Val(q) * d + r == Val(xs);
    }
  }

  /** The quotient of long division brackets the dividend between two multiples of d. */
  lemma {:induction false} LongDivisionBounds(xs: seq<int>, d: int)
    requires d > 0 && IsDigits(xs)
    ensures |LongDivision(xs, d).0| == |xs| && IsDigits(LongDivision(xs, d).0)
    ensures Val(LongDivision(xs, d).0) * d <= Val(xs) < (Val(LongDivision(xs, d).0) + 1) * d
  {
    LongDivisionIsDivision(xs, d);
    QuotientBounds(Val(LongDivision(xs, d).0), d, LongDivision(xs, d).1, Val(xs));
  }

  /** The quotient of long division is the dividend's value over d, rounded down. */
  lemma {:induction false} LongDivisionQuotient(xs: seq<int>, d: int)
    requires d > 0 && IsDigits(xs)
    ensures Val(LongDivision(xs, d).0) == Val(xs) / d && LongDivision(xs, d).1 == Val(xs) % d
  {
    LongDivisionIsDivision(xs, d);
    DivModUnique(Val(xs), d, Val(LongDivision(xs, d).0), LongDivision(xs, d).1);
  }

  /**
   * q is a / b as C's integer division computes it, rounded toward zero:
   * the remainder a - q * b is smaller than b in magnitude and never has
   * the opposite sign to a.
   */
  ghost predicate IsTruncatedQuotient(a: int, b: int, q: int)
  {
    Abs(a - q * b) < Abs(b) && (a >= 0 ==> a - q * b >= 0) && (a <= 0 ==> a - q * b <= 0)
  }

  /** The truncated quotient is unique: two quotients of the same division agree. */
  lemma {:induction false} TruncatedQuotientUnique(a: int, b: int, q1: int, q2: int)
    requires IsTruncatedQuotient(a, b, q1) && IsTruncatedQuotient(a, b, q2)
    ensures q1 == q2
  {
    var r1, r2 := a - q1 * b, a - q2 * b;
    assert r1 - r2 == (q2 - q1) * b;
    if q1 != q2 {
      if q2 - q1 >= 1 {
        MulMonotone(1, q2 - q1, Abs(b));
      } else {
        MulMonotone(1, q1 - q2, Abs(b));
      }
    }
  }

  /** For a non-negative dividend and a positive divisor, truncation is floor division. */
  lemma {:induction false} TruncatedQuotientOfNatural(a: int, b: int, q: int)
    requires 0 <= a && 0 < b && IsTruncatedQuotient(a, b, q)
    ensures q == a / b
  {
    assert IsTruncatedQuotient(a, b, a / b);
    TruncatedQuotientUnique(a, b, q, a / b);
  }

  /**
   * The magnitudes' quotient under the sign "the signs agree" is the
   * truncated quotient of the signed values.
   */
  lemma {:induction false} SignedQuotient(px: bool, py: bool, a: int, d: int, qv: int)
    requires 0 <= a && 0 < d && qv * d <= a < (qv + 1) * d
    ensures IsTruncatedQuotient(Signed(px, a), Signed(py, d), Signed(px == py, qv))
  {
    var m := qv * d;
    if qv < 0 {
      MulMonotone(qv + 1, 0, d);
    }
    if qv > 0 {
      MulMonotone(1, qv, d);
    }
    assert 0 <= m <= a;
    assert (qv + 1) * d == m + d;
    assert (-qv) * (-d) == m && qv * (-d) == -m && (-qv) * d == -m;
    if px && py {
      assert Signed(px, a) - Signed(px == py, qv) * Signed(py, d) == a - m;
    } else if px {
      assert Signed(px, a) - Signed(px == py, qv) * Signed(py, d) == a - m;
    } else if py {
      assert Signed(px, a) - Signed(px == py, qv) * Signed(py, d) == m - a;
    } else {
      assert Signed(px, a) - Signed(px == py, qv) * Signed(py, d) == m - a;
    }
  }

  /** The digits of long division, given the sign "the signs agree", are the truncated quotient of the signed operands. */
  lemma {:induction false} LongDivisionIsTruncated(px: bool, py: bool, xs: seq<int>, d: int)
    requires 0 < d && IsDigits(xs)
    ensures IsTruncatedQuotient(Signed(px, Val(xs)), Signed(py, d), Signed(px == py, Val(LongDivision(xs, d).0)))
  {
    LongDivisionBounds(xs, d);
    ValBounds(xs);
    SignedQuotient(px, py, Val(xs), d, Val(LongDivision(xs, d).0));
  }

  /** A quotient and a remainder below d bracket the dividend between two multiples of d. */
  lemma {:induction false} QuotientBounds(qv: int, d: int, c: int, a: int)
    requires qv * d + c == a && 0 <= c < d
    ensures qv * d <= a < (qv + 1) * d
  {
  }

  /** A value below 10 d once a digit is brought down has a quotient digit by d of at most 9. */
  lemma {:induction false} CountBound(count: int, d: int, t: int, c: int)
    requires d > 0 && count >= 0 && c >= 0 && count * d + c == t && t < 10 * d
    ensures count <= 9
  {
    if count >= 10 {
      MulMonotone(10, count, d);
    }
  }

  /** A remainder below d with one digit brought down stays below 10 d. */
  lemma {:induction false} BroughtDownBound(c: int, digit: int, d: int)
    requires 0 <= c && (c < d || c == 0) && 0 <= digit <= 9 && d >= 1
    ensures c * 10 + digit < 10 * d
  {
  }

  /**
   * The inner loop of divide_big_numbers: while the current dividend is
   * ranked at least the divisor, replace it by its difference with the
   * divisor and count one. Both are positive and canonical, so the ranking
   * is the value order and the count and what is left are the quotient and
   * the remainder of the current dividend by the divisor.
   */
  method SubtractWhileFits(current: BigNumber, divisor: BigNumber) returns (count: int, rest: BigNumber)
    requires current.Valid() && current.Normalised() && current.isPositive
    requires divisor.Valid() && Canonical(divisor.digits) && divisor.digits != [0] && divisor.isPositive
    requires current != divisor
    modifies current, divisor
    ensures rest == current || fresh(rest)
    ensures rest != divisor && rest.Valid() && rest.Normalised() && rest.isPositive
    ensures divisor.digits == old(divisor.digits) && divisor.numDigits == old(divisor.numDigits)
    ensures divisor.isEven == old(divisor.isEven) && divisor.isPositive
    ensures Val(divisor.digits) > 0 && count == FitCount(old(Val(current.digits)), Val(divisor.digits))
    ensures Val(rest.digits) == FitRest(old(Val(current.digits)), Val(divisor.digits))
    ensures 0 <= Val(rest.digits) < Val(divisor.digits)
  {
    ghost var d, v0 := Val(divisor.digits), Val(current.digits);
    CanonicalZero(divisor.digits);
    ValBounds(divisor.digits);
    ValBounds(current.digits);
    count, rest := 0, current;
    var comparison := CompareModules(rest, divisor);
    while comparison >= 0
      invariant rest == current || fresh(rest)
      invariant rest != divisor && rest.Valid() && rest.Normalised() && rest.isPositive
      invariant divisor.digits == old(divisor.digits) && divisor.numDigits == old(divisor.numDigits)
      invariant divisor.isEven == old(divisor.isEven) && divisor.isPositive
      invariant 0 <= Val(rest.digits) && d > 0
      invariant count + FitCount(Val(rest.digits), d) == FitCount(v0, d)
      invariant FitRest(Val(rest.digits), d) == FitRest(v0, d)
      invariant comparison == Sign(Val(rest.digits) - d)
      decreases Val(rest.digits)
    {
      ghost var v := Val(rest.digits);
      CanonicalOrderAgrees(rest.digits, divisor.digits);
      var updateCurrent := SubtractionBigNumbers(rest, divisor);
      assert updateCurrent.Value() == v - d;
      NormalisedSign(updateCurrent);
      assert Val(updateCurrent.digits) == v - d;
      rest := updateCurrent;
      count := count + 1;
      comparison := CompareModules(rest, divisor);
    }
  }

  /**
   * One quotient digit (the body of the digit loop of divide_big_numbers
   * after the zero-divisor test): the divisor is subtracted from the
   * current dividend t while it fits, and the count, FitCount(t, d), is
   * appended to the quotient as its new last digit; FitRest(t, d) is left.
   */
  method NextQuotientDigit(quotient: BigNumber, current: BigNumber, divisor: BigNumber, ghost d: int, ghost t: int)
    returns (rest: BigNumber)
    requires quotient != current && quotient != divisor && current != divisor
    requires quotient.numDigits == |quotient.digits| && IsDigits(quotient.digits) && quotient.isPositive
    requires current.Valid() && current.Normalised() && current.isPositive
    requires divisor.Valid() && Canonical(divisor.digits) && divisor.digits != [0] && divisor.isPositive
    requires d == Val(divisor.digits) && t == Val(current.digits) && t < 10 * d
    modifies quotient, current, divisor
    ensures rest == current || fresh(rest)
    ensures rest != quotient && rest != divisor && rest.Valid() && rest.Normalised() && rest.isPositive
    ensures divisor.digits == old(divisor.digits) && divisor.numDigits == old(divisor.numDigits)
    ensures divisor.isEven == old(divisor.isEven) && divisor.isPositive
    ensures d > 0 && quotient.digits == old(quotient.digits) + [FitCount(t, d)] && Val(rest.digits) == FitRest(t, d) < d
    ensures quotient.numDigits == |quotient.digits| && IsDigits(quotient.digits)
    ensures quotient.isPositive && quotient.ParityValid()
  {
    var count;
    count, rest := SubtractWhileFits(current, divisor);
    FitCountDigit(t, d);
    AddNodeToBigNumber(quotient, count, true);
  }

  /**
   * The next digit of the dividend appended at the end of the current
   * dividend, whose leading zeros are then dropped.
   */
  method BringDown(current: BigNumber, digit: int)
    requires current.Valid() && current.isPositive && 0 <= digit <= 9
    modifies current
    ensures current.Valid() && current.Normalised() && current.isPositive
    ensures Val(current.digits) == old(Val(current.digits)) * 10 + digit
    ensures 0 <= old(Val(current.digits))
  {
    ghost var before := current.digits;
    ValBounds(before);
    AddNodeToBigNumber(current, digit, true);
    ValAppend(before, digit);
    RemoveZerosFromLeft(current);
  }

  /**
   * One pass of the digit loop of divide_big_numbers: the k-th digit of the
   * dividend is brought down into the current dividend; a zero divisor puts
   * a single 0 in the quotient and stops the division (the result
   * `stopped`); otherwise the next quotient digit is appended and `rest` is
   * the new current dividend.
   */
  method DivideOneDigit(dividend: BigNumber, divisor: BigNumber, quotient: BigNumber, current: BigNumber, k: int)
    returns (stopped: bool, rest: BigNumber)
    requires dividend.Valid() && 0 <= k < |dividend.digits|
    requires divisor.Valid() && Canonical(divisor.digits) && divisor.isPositive
    requires quotient != current && quotient != dividend && quotient != divisor && current != dividend && current != divisor
    requires quotient.numDigits == |quotient.digits| && IsDigits(quotient.digits) && quotient.isPositive
    requires current.Valid() && current.isPositive
    requires k == 0 ==> current.digits == [] && quotient.digits == []
    requires k > 0 ==> Val(divisor.digits) > 0 && current.Normalised()
    requires Val(divisor.digits) > 0 ==> Val(current.digits) < Val(divisor.digits)
    modifies divisor, quotient, current
    ensures dividend.digits == old(dividend.digits) && dividend.numDigits == old(dividend.numDigits)
    ensures dividend.isEven == old(dividend.isEven) && dividend.isPositive == old(dividend.isPositive)
    ensures divisor.digits == old(divisor.digits) && divisor.numDigits == old(divisor.numDigits)
    ensures divisor.isEven == old(divisor.isEven) && divisor.isPositive
    ensures stopped <==> divisor.digits == [0]
    ensures stopped ==> quotient.digits == [0] && quotient.Valid() && quotient.ParityValid() && quotient.isPositive
    ensures !stopped ==> rest == current || fresh(rest)
    ensures !stopped ==> rest != quotient && rest != dividend && rest != divisor
    ensures !stopped ==> rest.Valid() && rest.Normalised() && rest.isPositive
    ensures !stopped ==> quotient.numDigits == |quotient.digits| && IsDigits(quotient.digits)
    ensures !stopped ==> quotient.isPositive && quotient.ParityValid()
    ensures !stopped ==> Val(divisor.digits) > 0
    ensures !stopped ==>
      quotient.digits == old(quotient.digits) + [FitCount(old(Val(current.digits)) * 10 + dividend.digits[k], Val(divisor.digits))]
    ensures !stopped ==>
      Val(rest.digits) == FitRest(old(Val(current.digits)) * 10 + dividend.digits[k], Val(divisor.digits)) < Val(divisor.digits)
  {
    ghost var d, c, digit := Val(divisor.digits), Val(current.digits), dividend.digits[k];
    CanonicalZero(divisor.digits);
    ValBounds(divisor.digits);
    BringDown(current, dividend.digits[k]);
    if divisor.digits[0] == 0 && divisor.numDigits == 1 {
      assert divisor.digits == [0] && k == 0;
      AddNodeToBigNumber(quotient, 0, true);
      return true, current;
    }
    BroughtDownBound(c, digit, d);
    rest := NextQuotientDigit(quotient, current, divisor, d, c * 10 + digit);
    return false, rest;
  }

  /**
   * The digit loop of divide_big_numbers, over the digits of the dividend
   * from the first; it stops at once on a zero divisor (the result
   * `stopped`). Otherwise the quotient digits are those of long division.
   */
  method DivideDigits(dividend: BigNumber, divisor: BigNumber, quotient: BigNumber, current: BigNumber)
    returns (stopped: bool)
    requires dividend.NonEmpty() && divisor.Valid() && Canonical(divisor.digits) && divisor.isPositive
    requires quotient != current && quotient != dividend && quotient != divisor && current != dividend && current != divisor
    requires quotient.numDigits == 0 && quotient.digits == [] && quotient.isPositive
    requires current.Valid() && current.digits == [] && current.isPositive
    modifies divisor, quotient, current
    ensures dividend.digits == old(dividend.digits) && dividend.numDigits == old(dividend.numDigits)
    ensures divisor.digits == old(divisor.digits) && divisor.numDigits == old(divisor.numDigits)
    ensures dividend.isEven == old(dividend.isEven) && divisor.isEven == old(divisor.isEven)
    ensures dividend.isPositive == old(dividend.isPositive) && divisor.isPositive
    ensures stopped <==> divisor.digits == [0]
    ensures quotient.Valid() && quotient.ParityValid() && quotient.isPositive
    ensures stopped ==> quotient.digits == [0]
    ensures !stopped ==> Val(divisor.digits) > 0 && quotient.digits == LongDivision(dividend.digits, Val(divisor.digits)).0
  {
    ghost var xs, d := dividend.digits, Val(divisor.digits);
    assert xs[..0] == [];
    ValBounds(divisor.digits);
    var currentDividend := current;
    var dividendNode := 0;
    while dividendNode < dividend.numDigits
      invariant 0 <= dividendNode <= |xs|
      invariant dividend.digits == xs && dividend.numDigits == |xs| && dividend.isEven == old(dividend.isEven)
      invariant dividend.isPositive == old(dividend.isPositive)
      invariant divisor.digits == old(divisor.digits) && divisor.numDigits == old(divisor.numDigits)
      invariant divisor.isEven == old(divisor.isEven) && divisor.isPositive
      invariant currentDividend == current || fresh(currentDividend)
      invariant currentDividend != quotient && currentDividend != dividend && currentDividend != divisor
      invariant quotient.numDigits == |quotient.digits| && IsDigits(quotient.digits) && quotient.isPositive
      invariant dividendNode > 0 ==> quotient.ParityValid()
      invariant currentDividend.Valid() && currentDividend.isPositive
      invariant dividendNode == 0 ==> currentDividend.digits == [] && quotient.digits == []
      invariant dividendNode > 0 ==> d > 0 && currentDividend.Normalised()
      invariant d > 0 ==> quotient.digits == LongDivision(xs[..dividendNode], d).0
      invariant d > 0 ==> Val(currentDividend.digits) == LongDivision(xs[..dividendNode], d).1 < d
    {
      var rest;
      stopped, rest := DivideOneDigit(dividend, divisor, quotient, currentDividend, dividendNode);
      if stopped {
        return;
      }
      LongDivisionStep(xs, dividendNode, d);
      currentDividend := rest;
      dividendNode := dividendNode + 1;
    }
    assert xs[..dividendNode] == xs;
    return false;
  }

  /**
   * The last two steps of divide_big_numbers: the quotient takes its sign,
   * then its leading zeros are dropped, which makes a zero positive. When
   * the digits are those long division of xs by d gives, the signed result
   * is the quotient of the signed operands rounded toward zero.
   */
  method SetSign(quotient: BigNumber, sign: bool, ghost px: bool, ghost py: bool, ghost xs: seq<int>, ghost d: int)
    requires quotient.Valid() && quotient.ParityValid()
    requires sign == (px == py) && 0 < d && IsDigits(xs) && quotient.digits == LongDivision(xs, d).0
    modifies quotient
    ensures quotient.Valid() && quotient.Normalised() && quotient.ParityValid()
    ensures quotient.isPositive == (sign || quotient.digits == [0])
    ensures IsTruncatedQuotient(Signed(px, Val(xs)), Signed(py, d), quotient.Value())
  {
    ghost var qv := Val(quotient.digits);
    LongDivisionIsTruncated(px, py, xs, d);
    quotient.isPositive := sign;
    RemoveZerosFromLeft(quotient);
    assert Val(quotient.digits) == qv;
    assert quotient.Value() == Signed(sign, qv);
  }

  /**
   * divide_big_numbers: both operands are made positive (and stay so), then
   * the digit loop runs; after a zero divisor the positive quotient 0 is
   * returned as it is. Otherwise the quotient takes the sign "the signs
   * agree" and is normalised: it is the quotient rounded toward zero.
   */
  method DivideBigNumbers(dividend: BigNumber, divisor: BigNumber) returns (quotient: BigNumber)
    requires dividend.NonEmpty() && divisor.Valid() && Canonical(divisor.digits)
    modifies dividend, divisor
    ensures fresh(quotient) && quotient.Valid() && quotient.Normalised() && quotient.ParityValid()
    ensures dividend.digits == old(dividend.digits) && dividend.numDigits == old(dividend.numDigits)
    ensures divisor.digits == old(divisor.digits) && divisor.numDigits == old(divisor.numDigits)
    ensures dividend.isEven == old(dividend.isEven) && divisor.isEven == old(divisor.isEven)
    ensures dividend.isPositive && divisor.isPositive
    ensures divisor.digits == [0] ==> quotient.digits == [0] && quotient.isPositive
    ensures divisor.digits != [0] ==>
      quotient.isPositive == (old(dividend.isPositive) == old(divisor.isPositive) || quotient.digits == [0])
    ensures divisor.digits != [0] ==>
      IsTruncatedQuotient(Signed(old(dividend.isPositive), Val(dividend.digits)),
                          Signed(old(divisor.isPositive), Val(divisor.digits)), quotient.Value())
  {
    var resultSign := dividend.isPositive == divisor.isPositive;
    ghost var px, py := dividend.isPositive, divisor.isPositive;
    dividend.isPositive := true;
    divisor.isPositive := true;
    quotient := CreateBigNumber("");
    var currentDividend := CreateBigNumber("");
    var stopped := DivideDigits(dividend, divisor, quotient, currentDividend);
    if stopped {
      return;
    }
    SetSign(quotient, resultSign, px, py, dividend.digits, Val(divisor.digits));
  }
}
