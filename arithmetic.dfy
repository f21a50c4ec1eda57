/**
 * Addition and subtraction of BigNumber records, each building a fresh
 * result record digit by digit.
 *
 * Addition and subtraction of operands with opposite signs hand over to each
 * other through the switch, which first makes both operands positive.
 */
module Arithmetic {
  import opened Digits
  import opened Numbers

  // ---------------------------------------------------------------------
  // What the digit walks compute, stated on digit sequences
  // ---------------------------------------------------------------------

  /**
   * The digits a borrow walk leaves when it subtracts the operand ranked
   * lower by Cmp from the one ranked higher: the difference of their values
   * modulo a power of ten as long as the higher-ranked operand.
   */
  ghost function BorrowDifference(a: seq<int>, b: seq<int>): int
  {
    if Cmp(a, b) == -1 then (Val(b) - Val(a)) % Pow10(|b|) else (Val(a) - Val(b)) % Pow10(|a|)
  }

  /** Magnitude of sum_big_numbers for operands with sign bits px and py. */
  ghost function SumMagnitude(px: bool, py: bool, a: seq<int>, b: seq<int>): int
  {
    if px == py then Val(a) + Val(b) else BorrowDifference(a, b)
  }

  /** Sign bit of sum_big_numbers: the common sign, or the sign of the higher-ranked operand. */
  ghost function SumSign(px: bool, py: bool, a: seq<int>, b: seq<int>): bool
  {
    if px == py || Cmp(a, b) != -1 then px else py
  }

  /** Magnitude of subtraction_big_numbers for operands with sign bits px and py. */
  ghost function SubtractionMagnitude(px: bool, py: bool, a: seq<int>, b: seq<int>): int
  {
    if px != py then Val(a) + Val(b) else BorrowDifference(a, b)
  }

  /** Sign bit of subtraction_big_numbers: x's sign, or the determined sign for equal signs. */
  ghost function SubtractionSign(px: bool, py: bool, a: seq<int>, b: seq<int>): bool
  {
    if px != py then px else if px then Cmp(a, b) == 1 else Cmp(a, b) == -1
  }

  /** A remainder of a value already in range is the value itself. */
  lemma {:induction false} ModInRange(z: int, m: int)
    requires 0 <= z < m
    ensures z % m == z
  {
    DivModUnique(z, m, 0, z);
  }

  /** The borrow walk is the distance of the two values when the ranking agrees with them. */
  lemma {:induction false} BorrowDifferenceIsDistance(a: seq<int>, b: seq<int>)
    requires IsDigits(a) && IsDigits(b) && OrderAgrees(a, b)
    ensures BorrowDifference(a, b) == Abs(Val(a) - Val(b))
  {
    ValBounds(a);
    ValBounds(b);
    if Cmp(a, b) == -1 {
      ModInRange(Val(b) - Val(a), Pow10(|b|));
    } else {
      ModInRange(Val(a) - Val(b), Pow10(|a|));
    }
  }

  /** The walk does not depend on the order of its operands. */
  lemma {:induction false} BorrowDifferenceSymmetric(a: seq<int>, b: seq<int>)
    ensures BorrowDifference(a, b) == BorrowDifference(b, a)
  {
    CmpAntisymmetric(a, b);
  }

  /** Equal digit sequences leave nothing. */
  lemma {:induction false} BorrowDifferenceSelf(a: seq<int>)
    ensures BorrowDifference(a, a) == 0
  {
    assert Cmp(a, a) == 0;
    ModInRange(0, Pow10(|a|));
  }

  /** With a leading zero the ranking is wrong and the walk wraps: "007" - "8" leaves 999. */
  lemma {:induction false} BorrowDifferenceWraps()
    ensures BorrowDifference([0, 0, 7], [8]) == 999
    ensures Val([0, 0, 7]) - Val([8]) == -1
  {
    assert [0, 0, 7][..2] == [0, 0];
    assert [0, 0][..1] == [0];
    assert Pow10(3) == 1000;
    ModInRange(999, 1000);
    assert -1 == (-1) * 1000 + 999;
    DivModUnique(-1, 1000, -1, 999);
  }

  /** sum_big_numbers adds signed values whenever the signs agree or the ranking is right. */
  lemma {:induction false} SumIsAddition(px: bool, py: bool, a: seq<int>, b: seq<int>)
    requires IsDigits(a) && IsDigits(b) && (px == py || OrderAgrees(a, b))
    ensures Signed(SumSign(px, py, a, b), SumMagnitude(px, py, a, b)) == Signed(px, Val(a)) + Signed(py, Val(b))
  {
    if px != py {
      BorrowDifferenceIsDistance(a, b);
    }
  }

  /** subtraction_big_numbers subtracts signed values whenever the signs differ or the ranking is right. */
  lemma {:induction false} SubtractionIsDifference(px: bool, py: bool, a: seq<int>, b: seq<int>)
    requires IsDigits(a) && IsDigits(b) && (px != py || OrderAgrees(a, b))
    ensures Signed(SubtractionSign(px, py, a, b), SubtractionMagnitude(px, py, a, b)) == Signed(px, Val(a)) - Signed(py, Val(b))
  {
    if px == py {
      BorrowDifferenceIsDistance(a, b);
    }
  }

  /** A sign bit on a zero magnitude does not matter. */
  lemma {:induction false} SignedZero(n: BigNumber, positive: bool, m: int)
    requires Val(n.digits) == m && (n.isPositive == positive || n.digits == [0])
    ensures n.Value() == Signed(positive, m)
  {
  }

  /** Where a node pointer walking towards the first digit goes next: the previous digit, or NULL (-1) again. */
  function Prev(i: int): int
  {
    if i >= 0 then i - 1 else i
  }

  /** The digit under pointer i, or 0 when the pointer is NULL (-1). */
  function DigitAt(ds: seq<int>, i: int): int
    requires i < |ds|
  {
    if i >= 0 then ds[i] else 0
  }

  /** The digits up to pointer i are worth those up to the previous one shifted by a place, plus the digit at i. */
  lemma {:induction false} PrefixStep(ds: seq<int>, i: int)
    requires -1 <= i < |ds|
    ensures Val(ds[..i + 1]) == Val(ds[..Prev(i) + 1]) * 10 + DigitAt(ds, i)
  {
    if i >= 0 {
      assert ds[..i + 1][..i] == ds[..i];
    }
  }

  /**
   * The digits of the result once the carry walk of sum_big_numbers has
   * finished, from node pointers i into a and j into b (-1 is NULL, and a
   * NULL pointer reads as 0), the carry into that column and the digits
   * written so far: each column puts its digit in front, and the walk goes
   * on while either pointer is not NULL or a carry remains.
   */
  function CarryWalk(a: seq<int>, b: seq<int>, i: int, j: int, carry: int, written: seq<int>): seq<int>
    requires -1 <= i < |a| && -1 <= j < |b| && 0 <= carry <= 1
    decreases i + j + 2, carry
  {
    if i < 0 && j < 0 && carry == 0 then written
    else
      var sum := DigitAt(a, i) + DigitAt(b, j) + carry;
      var carry' := if sum >= 10 then 1 else 0;
      CarryWalk(a, b, Prev(i), Prev(j), carry', [sum - 10 * carry'] + written)
  }

  /** One column of the carry walk, with the column's quotient and remainder by 10 as the C computes them. */
  lemma {:induction false} CarryWalkStep(a: seq<int>, b: seq<int>, i: int, j: int, carry: int, written: seq<int>, sum: int)
    requires -1 <= i < |a| && -1 <= j < |b| && 0 <= carry <= 1
    requires i >= 0 || j >= 0 || carry > 0
    requires sum == DigitAt(a, i) + DigitAt(b, j) + carry && 0 <= sum <= 19
    ensures CarryWalk(a, b, i, j, carry, written) == CarryWalk(a, b, Prev(i), Prev(j), sum / 10, [sum % 10] + written)
  {
    ColumnDigit(sum);
  }

  /** The carry walk writes decimal digits, at least one per column either operand still has. */
  lemma {:induction false} CarryWalkShape(a: seq<int>, b: seq<int>, i: int, j: int, carry: int, written: seq<int>)
    requires IsDigits(a) && IsDigits(b) && IsDigits(written) && -1 <= i < |a| && -1 <= j < |b| && 0 <= carry <= 1
    ensures IsDigits(CarryWalk(a, b, i, j, carry, written))
    ensures |CarryWalk(a, b, i, j, carry, written)| >= |written| + Max(i + 1, j + 1)
    decreases i + j + 2, carry
  {
    if !(i < 0 && j < 0 && carry == 0) {
      var sum := DigitAt(a, i) + DigitAt(b, j) + carry;
      var carry' := if sum >= 10 then 1 else 0;
      CarryWalkShape(a, b, Prev(i), Prev(j), carry', [sum - 10 * carry'] + written);
    }
  }

  /**
   * The carry walk adds: what it writes in front of the digits already
   * written is worth the digits up to the two pointers plus the carry.
   */
  lemma {:induction false} CarryWalkValue(a: seq<int>, b: seq<int>, i: int, j: int, carry: int, written: seq<int>)
    requires -1 <= i < |a| && -1 <= j < |b| && 0 <= carry <= 1
    ensures Val(CarryWalk(a, b, i, j, carry, written)) ==
            (Val(a[..i + 1]) + Val(b[..j + 1]) + carry) * Pow10(|written|) + Val(written)
    decreases i + j + 2, carry
  {
    if i < 0 && j < 0 && carry == 0 {
      assert CarryWalk(a, b, i, j, carry, written) == written;
      assert a[..i + 1] == [] && b[..j + 1] == [];
    } else {
      var sum := DigitAt(a, i) + DigitAt(b, j) + carry;
      var carry' := if sum >= 10 then 1 else 0;
      CarryWalkValue(a, b, Prev(i), Prev(j), carry', [sum - 10 * carry'] + written);
      CarryColumnValue(a, b, i, j, carry, written);
    }
  }

  /** One column of CarryWalkValue: the claim for the next column gives it for this one. */
  lemma {:induction false} CarryColumnValue(a: seq<int>, b: seq<int>, i: int, j: int, carry: int, written: seq<int>)
    requires -1 <= i < |a| && -1 <= j < |b| && 0 <= carry <= 1 && !(i < 0 && j < 0 && carry == 0)
    requires
      var sum := DigitAt(a, i) + DigitAt(b, j) + carry;
      var carry' := if sum >= 10 then 1 else 0;
      Val(CarryWalk(a, b, Prev(i), Prev(j), carry', [sum - 10 * carry'] + written)) ==
        (Val(a[..Prev(i) + 1]) + Val(b[..Prev(j) + 1]) + carry') * Pow10(|written| + 1) +
        Val([sum - 10 * carry'] + written)
    ensures Val(CarryWalk(a, b, i, j, carry, written)) ==
            (Val(a[..i + 1]) + Val(b[..j + 1]) + carry) * Pow10(|written|) + Val(written)
  {
    var sum := DigitAt(a, i) + DigitAt(b, j) + carry;
    var carry' := if sum >= 10 then 1 else 0;
    var digit := sum - 10 * carry';
    ValPrepend(digit, written);
    ShiftColumn(Val(CarryWalk(a, b, i, j, carry, written)), Val(a[..Prev(i) + 1]) + Val(b[..Prev(j) + 1]) + carry',
                digit, Pow10(|written|), Val(written));
    PrefixStep(a, i);
    PrefixStep(b, j);
  }

  /**
   * The digits of the result once the borrow walk of subtraction_big_numbers
   * has finished, and the borrow left over, from node pointers i into a and
   * j into b, the borrow into that column and the digits written so far:
   * each column puts its digit in front, and the walk goes on while either
   * pointer is not NULL.
   */
  function BorrowWalk(a: seq<int>, b: seq<int>, i: int, j: int, borrow: int, written: seq<int>): (seq<int>, int)
    requires -1 <= i < |a| && -1 <= j < |b|
    decreases i + j + 2
  {
    if i < 0 && j < 0 then (written, borrow)
    else
      var subtraction := DigitAt(a, i) - DigitAt(b, j) - borrow;
      var borrow' := if subtraction < 0 then 1 else 0;
      BorrowWalk(a, b, Prev(i), Prev(j), borrow', [subtraction + 10 * borrow'] + written)
  }

  /** One column of the borrow walk. */
  lemma {:induction false} BorrowWalkStep(a: seq<int>, b: seq<int>, i: int, j: int, borrow: int, written: seq<int>, subtraction: int)
    requires -1 <= i < |a| && -1 <= j < |b|
    requires i >= 0 || j >= 0
    requires subtraction == DigitAt(a, i) - DigitAt(b, j) - borrow
    ensures BorrowWalk(a, b, i, j, borrow, written) ==
            BorrowWalk(a, b, Prev(i), Prev(j), if subtraction < 0 then 1 else 0,
                       [if subtraction < 0 then subtraction + 10 else subtraction] + written)
  {
  }

  /** The borrow walk writes one decimal digit per column of the longer operand and leaves a borrow of 0 or 1. */
  lemma {:induction false} BorrowWalkShape(a: seq<int>, b: seq<int>, i: int, j: int, borrow: int, written: seq<int>)
    requires IsDigits(a) && IsDigits(b) && IsDigits(written) && -1 <= i < |a| && -1 <= j < |b| && 0 <= borrow <= 1
    ensures IsDigits(BorrowWalk(a, b, i, j, borrow, written).0) && 0 <= BorrowWalk(a, b, i, j, borrow, written).1 <= 1
    ensures |BorrowWalk(a, b, i, j, borrow, written).0| == |written| + Max(i + 1, j + 1)
    decreases i + j + 2
  {
    if !(i < 0 && j < 0) {
      var subtraction := DigitAt(a, i) - DigitAt(b, j) - borrow;
      var borrow' := if subtraction < 0 then 1 else 0;
      BorrowWalkShape(a, b, Prev(i), Prev(j), borrow', [subtraction + 10 * borrow'] + written);
    }
  }

  /**
   * The borrow walk subtracts: less the final borrow at the place after its
   * last digit, what it writes in front of the digits already written is
   * worth the digits of a up to i less those of b up to j less the borrow.
   */
  lemma {:induction false} BorrowWalkValue(a: seq<int>, b: seq<int>, i: int, j: int, borrow: int, written: seq<int>)
    requires -1 <= i < |a| && -1 <= j < |b|
    ensures Val(BorrowWalk(a, b, i, j, borrow, written).0) -
              BorrowWalk(a, b, i, j, borrow, written).1 * Pow10(|BorrowWalk(a, b, i, j, borrow, written).0|) ==
            (Val(a[..i + 1]) - Val(b[..j + 1]) - borrow) * Pow10(|written|) + Val(written)
    decreases i + j + 2
  {
    if i < 0 && j < 0 {
      assert BorrowWalk(a, b, i, j, borrow, written) == (written, borrow);
      assert a[..i + 1] == [] && b[..j + 1] == [];
      assert Val(a[..i + 1]) - Val(b[..j + 1]) - borrow == -borrow;
    } else {
      var subtraction := DigitAt(a, i) - DigitAt(b, j) - borrow;
      var borrow' := if subtraction < 0 then 1 else 0;
      BorrowWalkValue(a, b, Prev(i), Prev(j), borrow', [subtraction + 10 * borrow'] + written);
      BorrowColumnValue(a, b, i, j, borrow, written);
    }
  }

  /** One column of BorrowWalkValue: the claim for the next column gives it for this one. */
  lemma {:induction false} BorrowColumnValue(a: seq<int>, b: seq<int>, i: int, j: int, borrow: int, written: seq<int>)
    requires -1 <= i < |a| && -1 <= j < |b| && (i >= 0 || j >= 0)
    requires
      var subtraction := DigitAt(a, i) - DigitAt(b, j) - borrow;
      var borrow' := if subtraction < 0 then 1 else 0;
      var rest := BorrowWalk(a, b, Prev(i), Prev(j), borrow', [subtraction + 10 * borrow'] + written);
      Val(rest.0) - rest.1 * Pow10(|rest.0|) ==
        (Val(a[..Prev(i) + 1]) - Val(b[..Prev(j) + 1]) - borrow') * Pow10(|written| + 1) +
        Val([subtraction + 10 * borrow'] + written)
    ensures Val(BorrowWalk(a, b, i, j, borrow, written).0) -
              BorrowWalk(a, b, i, j, borrow, written).1 * Pow10(|BorrowWalk(a, b, i, j, borrow, written).0|) ==
            (Val(a[..i + 1]) - Val(b[..j + 1]) - borrow) * Pow10(|written|) + Val(written)
  {
    var subtraction := DigitAt(a, i) - DigitAt(b, j) - borrow;
    var borrow' := if subtraction < 0 then 1 else 0;
    var digit := subtraction + 10 * borrow';
    var walk := BorrowWalk(a, b, i, j, borrow, written);
    assert walk == BorrowWalk(a, b, Prev(i), Prev(j), borrow', [digit] + written);
    ValPrepend(digit, written);
    ShiftColumn(Val(walk.0) - walk.1 * Pow10(|walk.0|), Val(a[..Prev(i) + 1]) - Val(b[..Prev(j) + 1]) - borrow',
                digit, Pow10(|written|), Val(written));
    PrefixStep(a, i);
    PrefixStep(b, j);
  }

  /** A column's digit d and the columns beyond it (worth t) form t * 10 + d at weight p. */
  lemma {:induction false} ShiftColumn(total: int, t: int, d: int, p: int, w: int)
    requires total == t * (10 * p) + (d * p + w)
    ensures total == (t * 10 + d) * p + w
  {
    assert (t * 10 + d) * p == t * (10 * p) + d * p;
  }

  /** The whole carry walk of two digit sequences adds them. */
  lemma {:induction false} CarryWalkSum(a: seq<int>, b: seq<int>)
    requires IsDigits(a) && IsDigits(b) && |a| >= 1
    ensures IsDigits(CarryWalk(a, b, |a| - 1, |b| - 1, 0, [])) && |CarryWalk(a, b, |a| - 1, |b| - 1, 0, [])| >= 1
    ensures Val(CarryWalk(a, b, |a| - 1, |b| - 1, 0, [])) == Val(a) + Val(b)
  {
    CarryWalkShape(a, b, |a| - 1, |b| - 1, 0, []);
    CarryWalkValue(a, b, |a| - 1, |b| - 1, 0, []);
    assert a[..|a|] == a && b[..|b|] == b;
  }

  /**
   * The whole borrow walk of a digit sequence and one no longer than it, in
   * front of decimal digits already written, writes as many digits as the
   * first has, worth the difference (shifted past the written digits)
   * modulo the power of ten of the whole length.
   */
  lemma {:induction false} BorrowWalkDifference(a: seq<int>, b: seq<int>, written: seq<int>)
    requires IsDigits(a) && IsDigits(b) && IsDigits(written) && |b| <= |a|
    ensures IsDigits(BorrowWalk(a, b, |a| - 1, |b| - 1, 0, written).0)
    ensures |BorrowWalk(a, b, |a| - 1, |b| - 1, 0, written).0| == |a| + |written|
    ensures Val(BorrowWalk(a, b, |a| - 1, |b| - 1, 0, written).0) ==
            ((Val(a) - Val(b)) * Pow10(|written|) + Val(written)) % Pow10(|a| + |written|)
  {
    var walk := BorrowWalk(a, b, |a| - 1, |b| - 1, 0, written);
    BorrowWalkShape(a, b, |a| - 1, |b| - 1, 0, written);
    BorrowWalkValue(a, b, |a| - 1, |b| - 1, 0, written);
    assert a[..|a|] == a && b[..|b|] == b;
    ValBounds(walk.0);
    DroppedBorrow(Val(walk.0), walk.1, Pow10(|walk.0|), (Val(a) - Val(b)) * Pow10(|written|) + Val(written));
  }

  /** A value v in [0, p) that differs from z by a multiple of p is z modulo p. */
  lemma {:induction false} DroppedBorrow(v: int, borrow: int, p: int, z: int)
    requires 0 <= v < p && v - borrow * p == z
    ensures v == z % p
  {
    DivModUnique(z, p, -borrow, v);
  }

  /** The C column arithmetic (quotient and remainder by 10) agrees with the walk's column. */
  lemma {:induction false} ColumnDigit(sum: int)
    requires 0 <= sum <= 19
    ensures sum / 10 == (if sum >= 10 then 1 else 0)
    ensures sum % 10 == sum - 10 * (if sum >= 10 then 1 else 0)
  {
  }

  // ---------------------------------------------------------------------
  // Switch, addition and subtraction
  // ---------------------------------------------------------------------

  /**
   * The carry walk of sum_big_numbers: from the last digits forwards, adds
   * the two columns and the carry, puts the column's digit in front of the
   * result and carries on while either operand has digits left or a carry
   * remains.
   */
  method AddMagnitudes(x: BigNumber, y: BigNumber, r: BigNumber)
    requires x.NonEmpty() && y.NonEmpty() && r != x && r != y
    requires r.numDigits == |r.digits| && r.digits == []
    modifies r
    ensures r.digits == CarryWalk(x.digits, y.digits, |x.digits| - 1, |y.digits| - 1, 0, [])
    ensures r.numDigits == |r.digits| && r.isPositive == old(r.isPositive) && r.isEven == old(r.isEven)
  {
    ghost var xs, ys := x.digits, y.digits;
    var nodeX, nodeY := x.numDigits - 1, y.numDigits - 1;
    var carryDigit := 0;
    while nodeX >= 0 || nodeY >= 0 || carryDigit > 0
      modifies r
      invariant -1 <= nodeX < |xs| && -1 <= nodeY < |ys| && 0 <= carryDigit <= 1
      invariant r.numDigits == |r.digits| && r.isPositive == old(r.isPositive) && r.isEven == old(r.isEven)
      invariant CarryWalk(xs, ys, nodeX, nodeY, carryDigit, r.digits) ==
                CarryWalk(xs, ys, |xs| - 1, |ys| - 1, 0, [])
      decreases nodeX + nodeY + 2, carryDigit
    {
      var digitX := if nodeX >= 0 then x.digits[nodeX] else 0;
      var digitY := if nodeY >= 0 then y.digits[nodeY] else 0;
      var sum := digitX + digitY + carryDigit;
      CarryWalkStep(xs, ys, nodeX, nodeY, carryDigit, r.digits, sum);
      carryDigit := sum / 10;
      var newResultDigit := sum % 10;
      AddNodeToBigNumber(r, newResultDigit, false);
      if nodeX >= 0 {
        nodeX := nodeX - 1;
      }
      if nodeY >= 0 {
        nodeY := nodeY - 1;
      }
    }
  }

  /**
   * The borrow walk of subtraction_big_numbers: from the last digits forwards,
   * subtracts the column of y and the borrow from the column of x, borrowing
   * 10 when that goes below zero, and puts the column's digit in front of the
   * result while either operand has digits left; the final borrow is dropped.
   */
  method SubtractMagnitudes(x: BigNumber, y: BigNumber, r: BigNumber)
    requires x.NonEmpty() && y.NonEmpty() && r != x && r != y
    requires r.numDigits == |r.digits|
    modifies r
    ensures r.digits == BorrowWalk(x.digits, y.digits, |x.digits| - 1, |y.digits| - 1, 0, old(r.digits)).0
    ensures r.numDigits == |r.digits| && r.isPositive == old(r.isPositive) && r.isEven == old(r.isEven)
  {
    ghost var xs, ys := x.digits, y.digits;
    var nodeX, nodeY := x.numDigits - 1, y.numDigits - 1;
    var borrowDigit := 0;
    while nodeX >= 0 || nodeY >= 0
      modifies r
      invariant -1 <= nodeX < |xs| && -1 <= nodeY < |ys|
      invariant r.numDigits == |r.digits| && r.isPositive == old(r.isPositive) && r.isEven == old(r.isEven)
      invariant BorrowWalk(xs, ys, nodeX, nodeY, borrowDigit, r.digits) ==
                BorrowWalk(xs, ys, |xs| - 1, |ys| - 1, 0, old(r.digits))
      decreases nodeX + nodeY + 2
    {
      var digitX := if nodeX >= 0 then x.digits[nodeX] else 0;
      var digitY := if nodeY >= 0 then y.digits[nodeY] else 0;
      var subtraction := digitX - digitY - borrowDigit;
      BorrowWalkStep(xs, ys, nodeX, nodeY, borrowDigit, r.digits, subtraction);
      if subtraction < 0 {
        subtraction := subtraction + 10;
        borrowDigit := 1;
      } else {
        borrowDigit := 0;
      }
      AddNodeToBigNumber(r, subtraction, false);
      if nodeX >= 0 {
        nodeX := nodeX - 1;
      }
      if nodeY >= 0 {
        nodeY := nodeY - 1;
      }
    }
  }

  /**
   * The borrow walk as subtraction_big_numbers runs it on equal signs: the
   * higher-ranked operand less the lower-ranked one, with a 0 already
   * written for two equal digit sequences, leaves BorrowDifference.
   */
  lemma {:induction false} OrderedBorrowWalk(a: seq<int>, b: seq<int>, high: seq<int>, low: seq<int>, written: seq<int>)
    requires IsDigits(a) && IsDigits(b) && |a| >= 1 && |b| >= 1
    requires if Cmp(a, b) == -1 then high == b && low == a else high == a && low == b
    requires written == if a == b then [0] else []
    ensures IsDigits(BorrowWalk(high, low, |high| - 1, |low| - 1, 0, written).0)
    ensures |BorrowWalk(high, low, |high| - 1, |low| - 1, 0, written).0| >= 1
    ensures Val(BorrowWalk(high, low, |high| - 1, |low| - 1, 0, written).0) == BorrowDifference(a, b)
  {
    CmpAntisymmetric(a, b);
    assert Cmp(high, low) >= 0;
    BorrowWalkDifference(high, low, written);
    if written != [] {
      BorrowDifferenceSelf(a);
      assert Val(written) == 0 && Pow10(|written|) == 10;
      ModInRange(0, Pow10(|high| + 1));
    }
  }

  /**
   * switch_to_sum_or_subtraction: make both operands positive, then add or
   * subtract their magnitudes as the tag says and give the result `sign`.
   */
  method SwitchToSumOrSubtraction(switchTo: string, sign: bool, x: BigNumber, y: BigNumber)
    returns (r: BigNumber)
    requires x.NonEmpty() && y.NonEmpty()
    modifies x, y
    decreases 1
    ensures fresh(r) && r.Valid() && Canonical(r.digits) && r.ParityValid()
    ensures x.isPositive && y.isPositive
    ensures x.digits == old(x.digits) && x.numDigits == old(x.numDigits) && x.isEven == old(x.isEven)
    ensures y.digits == old(y.digits) && y.numDigits == old(y.numDigits) && y.isEven == old(y.isEven)
    ensures r.isPositive == sign
    ensures Val(r.digits) == if switchTo == "sub" then BorrowDifference(x.digits, y.digits)
                             else Val(x.digits) + Val(y.digits)
  {
    var resultSign := sign;
    x.isPositive := true;
    y.isPositive := true;
    if switchTo == "sub" {
      r := SubtractionBigNumbers(x, y);
      r.isPositive := resultSign;
    } else {
      r := SumBigNumbers(x, y);
      r.isPositive := resultSign;
    }
  }

  /**
   * The equal-sign branch of sum_big_numbers: the common sign, then the
   * carry walk.
   */
  method AddSameSigns(x: BigNumber, y: BigNumber, r: BigNumber)
    requires x.NonEmpty() && y.NonEmpty() && x.isPositive == y.isPositive
    requires r != x && r != y && r.numDigits == 0 && r.digits == []
    modifies r
    ensures r.Valid() && |r.digits| >= 1 && r.isEven == old(r.isEven)
    ensures Val(r.digits) == Val(x.digits) + Val(y.digits)
    ensures r.isPositive == x.isPositive
  {
    if !x.isPositive && !y.isPositive {
      r.isPositive := false;
    } else {
      r.isPositive := true;
    }
    AddMagnitudes(x, y, r);
    CarryWalkSum(x.digits, y.digits);
  }

  /**
   * sum_big_numbers. Opposite signs: equal digit sequences give a lone 0,
   * otherwise the switch subtracts the lower-ranked magnitude from the higher
   * one under the higher one's sign. Equal signs: a carry walk from the least
   * significant digits, under the common sign. The result is normalised.
   */
  method SumBigNumbers(x: BigNumber, y: BigNumber) returns (r: BigNumber)
    requires x.NonEmpty() && y.NonEmpty()
    modifies x, y
    decreases if x.isPositive != y.isPositive then 3 else 0
    ensures fresh(r) && r.Valid() && r.Normalised()
    ensures x.digits == old(x.digits) && x.numDigits == old(x.numDigits) && x.isEven == old(x.isEven)
    ensures y.digits == old(y.digits) && y.numDigits == old(y.numDigits) && y.isEven == old(y.isEven)
    ensures x.isPositive == (old(x.isPositive) || (old(y.isPositive) && x.digits != y.digits))
    ensures y.isPositive == (old(y.isPositive) || (old(x.isPositive) && x.digits != y.digits))
    ensures Val(r.digits) == SumMagnitude(old(x.isPositive), old(y.isPositive), x.digits, y.digits)
    ensures r.isPositive == (SumSign(old(x.isPositive), old(y.isPositive), x.digits, y.digits) || r.digits == [0])
    ensures old(x.isPositive) == old(y.isPositive) || x.digits != y.digits ==> r.ParityValid()
    ensures old(x.isPositive) == old(y.isPositive) || OrderAgrees(x.digits, y.digits) ==>
      r.Value() == Signed(old(x.isPositive), Val(x.digits)) + Signed(old(y.isPositive), Val(y.digits))
  {
    ghost var px, py := x.isPositive, y.isPositive;
    ghost var sign := SumSign(px, py, x.digits, y.digits);
    r := new BigNumber();
    if x.isPositive != y.isPositive {
      var stopped;
      r, stopped := AddOppositeSigns(x, y, r);
      if stopped {
        BorrowDifferenceSelf(x.digits);
        if OrderAgrees(x.digits, y.digits) {
          SumIsAddition(px, py, x.digits, y.digits);
          SignedZero(r, sign, 0);
        }
        return;
      }
    } else {
      AddSameSigns(x, y, r);
    }
    FinishSum(r, px, py, x.digits, y.digits);
  }

  /**
   * The common tail of sum_big_numbers: record the parity of the last digit
   * and strip the leading zeros of a result with the magnitude and sign bit
   * of the sum of operands with digits xs, ys and sign bits px, py.
   */
  method FinishSum(r: BigNumber, ghost px: bool, ghost py: bool, ghost xs: seq<int>, ghost ys: seq<int>)
    requires r.Valid() && |r.digits| >= 1 && IsDigits(xs) && IsDigits(ys)
    requires Val(r.digits) == SumMagnitude(px, py, xs, ys) && r.isPositive == SumSign(px, py, xs, ys)
    modifies r
    ensures r.Valid() && r.Normalised() && r.ParityValid()
    ensures Val(r.digits) == SumMagnitude(px, py, xs, ys)
    ensures r.isPositive == (SumSign(px, py, xs, ys) || r.digits == [0])
    ensures px == py || OrderAgrees(xs, ys) ==> r.Value() == Signed(px, Val(xs)) + Signed(py, Val(ys))
  {
    r.isEven := r.digits[|r.digits| - 1] % 2 == 0;
    RemoveZerosFromLeft(r);
    if px == py || OrderAgrees(xs, ys) {
      SumIsAddition(px, py, xs, ys);
      SignedZero(r, SumSign(px, py, xs, ys), SumMagnitude(px, py, xs, ys));
    }
  }

  /**
   * The opposite-sign branch of sum_big_numbers: subtract the lower-ranked
   * magnitude from the higher-ranked one with the sign of the latter; for
   * equal digit sequences a single 0 goes into the empty result and
   * `stopped` reports the early return.
   */
  method AddOppositeSigns(x: BigNumber, y: BigNumber, empty: BigNumber) returns (r: BigNumber, stopped: bool)
    requires x.NonEmpty() && y.NonEmpty() && x.isPositive != y.isPositive
    requires empty != x && empty != y && empty.digits == [] && empty.numDigits == 0 && empty.isPositive
    modifies x, y, empty
    decreases 2
    ensures (r == empty || fresh(r)) && r.Valid() && |r.digits| >= 1
    ensures x.digits == old(x.digits) && x.numDigits == old(x.numDigits) && x.isEven == old(x.isEven)
    ensures y.digits == old(y.digits) && y.numDigits == old(y.numDigits) && y.isEven == old(y.isEven)
    ensures x.isPositive == (old(x.isPositive) || x.digits != y.digits)
    ensures y.isPositive == (old(y.isPositive) || x.digits != y.digits)
    ensures stopped == (x.digits == y.digits)
    ensures Val(r.digits) == BorrowDifference(x.digits, y.digits)
    ensures stopped ==> r.digits == [0] && r.isPositive
    ensures !stopped ==> r.isPositive == SumSign(old(x.isPositive), old(y.isPositive), x.digits, y.digits)
  {
    var comparison := CompareModules(x, y);
    stopped := false;
    if comparison == 1 {
      r := SwitchToSumOrSubtraction("sub", x.isPositive, x, y);
    } else if comparison == -1 {
      r := SwitchToSumOrSubtraction("sub", y.isPositive, y, x);
      BorrowDifferenceSymmetric(x.digits, y.digits);
    } else {
      r := empty;
      AddNodeToBigNumber(r, 0, false);
      BorrowDifferenceSelf(x.digits);
      stopped := true;
    }
  }

  /**
   * The equal-sign branch of subtraction_big_numbers: determine the sign,
   * order the operands (putting a 0 in the empty result for two equal
   * digit sequences), run the borrow walk, then set the sign and the parity
   * cache of the result.
   */
  method SubtractSameSigns(x: BigNumber, y: BigNumber, r: BigNumber)
    requires x.NonEmpty() && y.NonEmpty() && x.isPositive == y.isPositive
    requires r != x && r != y && r.numDigits == 0 && r.digits == []
    modifies r
    ensures r.Valid() && r.ParityValid()
    ensures Val(r.digits) == BorrowDifference(x.digits, y.digits)
    ensures r.isPositive == SubtractionSign(x.isPositive, y.isPositive, x.digits, y.digits)
  {
    var resultSign := DetermineSignInSubtraction(x, y);
    var nodeX, nodeY := DetermineOrderOfSubtraction(x, y, r);
    // a 0 put in front of the still empty result ends up as its last digit
    ghost var prefix := r.digits;
    SubtractMagnitudes(nodeX, nodeY, r);
    OrderedBorrowWalk(x.digits, y.digits, nodeX.digits, nodeY.digits, prefix);
    r.isPositive := resultSign;
    r.isEven := r.digits[|r.digits| - 1] % 2 == 0;
  }

  /**
   * subtraction_big_numbers. Opposite signs: the switch adds the magnitudes
   * under x's sign. Equal signs: a borrow walk subtracts the lower-ranked
   * magnitude from the higher one (two equal digit sequences put one 0 in
   * front first), under the determined sign. The result is normalised and
   * its parity cache follows its last digit.
   */
  method SubtractionBigNumbers(x: BigNumber, y: BigNumber) returns (r: BigNumber)
    requires x.NonEmpty() && y.NonEmpty()
    modifies x, y
    decreases if x.isPositive != y.isPositive then 2 else 0
    ensures fresh(r) && r.Valid() && r.Normalised() && r.ParityValid()
    ensures x.digits == old(x.digits) && x.numDigits == old(x.numDigits) && x.isEven == old(x.isEven)
    ensures y.digits == old(y.digits) && y.numDigits == old(y.numDigits) && y.isEven == old(y.isEven)
    ensures x.isPositive == (old(x.isPositive) || old(y.isPositive))
    ensures y.isPositive == (old(x.isPositive) || old(y.isPositive))
    ensures Val(r.digits) == SubtractionMagnitude(old(x.isPositive), old(y.isPositive), x.digits, y.digits)
    ensures r.isPositive == (SubtractionSign(old(x.isPositive), old(y.isPositive), x.digits, y.digits) || r.digits == [0])
    ensures old(x.isPositive) != old(y.isPositive) || OrderAgrees(x.digits, y.digits) ==>
      r.Value() == Signed(old(x.isPositive), Val(x.digits)) - Signed(old(y.isPositive), Val(y.digits))
  {
    ghost var px, py := x.isPositive, y.isPositive;
    ghost var magnitude := SubtractionMagnitude(px, py, x.digits, y.digits);
    ghost var sign := SubtractionSign(px, py, x.digits, y.digits);
    r := new BigNumber();
    if x.isPositive != y.isPositive {
      r := SwitchToSumOrSubtraction("sum", x.isPositive, x, y);
    } else {
      SubtractSameSigns(x, y, r);
    }
    assert Val(r.digits) == magnitude && r.isPositive == sign;
    RemoveZerosFromLeft(r);
    if px != py || OrderAgrees(x.digits, y.digits) {
      SubtractionIsDifference(px, py, x.digits, y.digits);
      SignedZero(r, sign, magnitude);
    }
  }

}
