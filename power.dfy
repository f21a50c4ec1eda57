/**
 * fast_exponentiation: exponentiation by squaring, built only from calls to
 * the stateful operations of the other modules.
 */
module Power {
  import opened Digits
  import opened Numbers
  import opened Arithmetic
  import opened Products

  /** b raised to the power e (1 for every e <= 0). */
  function Pow(b: int, e: int): int
    decreases e
  {
    if e <= 0 then 1 else b * Pow(b, e - 1)
  }

  /** Exponents add. */
  lemma {:induction false} PowAdd(b: int, m: nat, n: nat)
    ensures Pow(b, m + n) == Pow(b, m) * Pow(b, n)
    decreases m
  {
    if m > 0 {
      PowAdd(b, m - 1, n);
      assert Pow(b, m + n) == b * Pow(b, m - 1 + n);
    }
  }

  /** An even power is the square of the power of half the exponent. */
  lemma {:induction false} PowSquare(b: int, k: nat)
    ensures Pow(b, 2 * k) == Pow(b, k) * Pow(b, k)
  {
    PowAdd(b, k, k);
  }

  /** A power of a signed magnitude: the magnitude's power, negative only for an odd exponent. */
  lemma {:induction false} PowSigned(p: bool, m: int, e: nat)
    ensures Pow(Signed(p, m), e) == Signed(p || e % 2 == 0, Pow(m, e))
    decreases e
  {
    if e > 0 {
      PowSigned(p, m, e - 1);
    }
  }

  /** Powers of ten agree with Pow10. */
  lemma {:induction false} PowTen(k: nat)
    ensures Pow(10, k) == Pow10(k)
  {
    if k > 0 {
      PowTen(k - 1);
    }
  }

  /** A number is even exactly when its last digit is. */
  lemma {:induction false} ValParity(ds: seq<int>)
    requires |ds| >= 1
    ensures Val(ds) % 2 == ds[|ds| - 1] % 2
  {
    var a, l := Val(ds[..|ds| - 1]), ds[|ds| - 1];
    DivModUnique(Val(ds), 2, a * 5 + l / 2, l % 2);
  }

  /** The text of a single decimal digit, as create_big_number reads it. */
  lemma {:induction false} DigitText(c: char)
    requires IsDigitChar(c)
    ensures IsNumberText([c]) && SignLength([c]) == 0
    ensures DigitValues([c][0..]) == [c as int - '0' as int] && Val([c as int - '0' as int]) == c as int - '0' as int
  {
    assert [c][0..] == [c] && [c][..0] == [];
    assert [c as int - '0' as int][..0] == [];
  }

  /** One below an odd number is even. */
  lemma {:induction false} OddPredecessor(e: int)
    requires e % 2 == 1
    ensures (e - 1) % 2 == 0
  {
    DivModUnique(e - 1, 2, e / 2, 0);
  }

  /**
   * What fast_exponentiation needs of its exponent: at least one digit, a
   * right parity cache, and a value that is not negative. Leading zeros are
   * allowed, and so is a negative zero.
   */
  ghost predicate IsExponent(e: BigNumber)
    reads e
  {
    e.NonEmpty() && e.ParityValid() && (e.isPositive || Val(e.digits) == 0)
  }

  /** A quotient by 2 of an e >= 0 with sign bit hp and magnitude h is e / 2, and not a negative number. */
  lemma {:induction false} HalfValue(e: int, hp: bool, h: int)
    requires 0 <= e && 0 <= h && IsTruncatedQuotient(e, 2, Signed(hp, h))
    ensures h == e / 2 && (hp || h == 0)
  {
    TruncatedQuotientOfNatural(e, 2, Signed(hp, h));
  }

  /** A sequence of value 0 other than [0] has more than one digit. */
  lemma {:induction false} LongZero(ds: seq<int>)
    requires |ds| >= 1 && ds != [0] && Val(ds) == 0
    ensures |ds| >= 2
  {
    assert ds == [ds[0]] + ds[1..];
    ValPrepend(ds[0], ds[1..]);
  }

  /**
   * The quotient of an exponent by 2: worth half of it, not a negative
   * number, and smaller, in value or, for a zero with leading zeros such
   * as "00", in digits, since it is the lone 0.
   */
  lemma {:induction false} HalfOfExponent(p: bool, ds: seq<int>, hp: bool, hs: seq<int>, a: int, b: int, q: int)
    requires |ds| >= 1 && ds != [0] && IsDigits(ds) && (p || Val(ds) == 0) && Canonical(hs)
    requires IsTruncatedQuotient(a, b, q) && a == Signed(p, Val(ds)) && b == 2 && q == Signed(hp, Val(hs))
    ensures Val(hs) == Val(ds) / 2 && (hp || Val(hs) == 0)
    ensures Val(hs) < Val(ds) || (Val(hs) == 0 && |hs| < |ds|)
  {
    var e, h := Val(ds), Val(hs);
    ValBounds(ds);
    ValBounds(hs);
    assert Signed(p, e) == e;
    HalfValue(e, hp, h);
    if e == 0 {
      CanonicalZero(hs);
      LongZero(ds);
    }
  }

  /**
   * fast_exponentiation: a lone 0 digit gives 1; an even exponent, read
   * from its is_even cache, gives the square of the power for half the
   * exponent; an odd one gives base times the power for the exponent minus
   * 1. The division by 2 makes a negative zero exponent positive.
   */
  method FastExponentiation(base: BigNumber, exponent: BigNumber) returns (result: BigNumber)
    requires base.NonEmpty() && base != exponent && IsExponent(exponent)
    modifies exponent
    decreases Val(exponent.digits), exponent.numDigits, 1
    ensures fresh(result) && result.Valid() && Canonical(result.digits)
    ensures exponent.digits == old(exponent.digits) && exponent.numDigits == old(exponent.numDigits)
    ensures exponent.isEven == old(exponent.isEven)
    ensures exponent.isPositive == (old(exponent.isPositive) || exponent.digits != [0])
    ensures Val(result.digits) == Pow(Val(base.digits), Val(exponent.digits))
    ensures result.isPositive == (base.isPositive || Val(exponent.digits) % 2 == 0)
    ensures result.Value() == Pow(base.Value(), Val(exponent.digits))
  {
    ValBounds(exponent.digits);
    if exponent.digits[0] == 0 && exponent.numDigits == 1 {
      assert exponent.digits == [0];
      result := CreateBigNumber("");
      AddNodeToBigNumber(result, 1, true);
      assert result.digits == [1];
    } else if exponent.isEven {
      result := EvenPower(base, exponent);
    } else {
      result := OddPower(base, exponent);
    }
  }

  /** The number create_big_number builds from the text of one decimal digit. */
  method DigitNumber(c: char) returns (r: BigNumber)
    requires IsDigitChar(c)
    ensures fresh(r) && r.Valid() && r.ParityValid() && r.isPositive
    ensures r.digits == [c as int - '0' as int] && Val(r.digits) == c as int - '0' as int
  {
    DigitText(c);
    r := CreateBigNumber([c]);
  }

  /**
   * The division of bignumber.c:328-329: divide_big_numbers of the exponent
   * by the number "2", which leaves the exponent positive.
   */
  method DivideByTwo(exponent: BigNumber) returns (half: BigNumber)
    requires exponent.NonEmpty()
    modifies exponent
    ensures fresh(half) && half.Valid() && half.Normalised() && half.ParityValid()
    ensures exponent.digits == old(exponent.digits) && exponent.numDigits == old(exponent.numDigits)
    ensures exponent.isEven == old(exponent.isEven) && exponent.isPositive
    ensures IsTruncatedQuotient(Signed(old(exponent.isPositive), Val(exponent.digits)), 2, half.Value())
  {
    var two := DigitNumber('2');
    assert Canonical(two.digits);
    half := DivideBigNumbers(exponent, two);
    assert two.digits != [0];
  }

  /**
   * Halving the exponent (bignumber.c:328-329). The half is again an
   * exponent, and it is smaller in value, or a lone 0 with fewer digits.
   */
  method HalveExponent(exponent: BigNumber) returns (half: BigNumber)
    requires IsExponent(exponent) && exponent.digits != [0]
    modifies exponent
    ensures fresh(half) && IsExponent(half)
    ensures exponent.digits == old(exponent.digits) && exponent.numDigits == old(exponent.numDigits)
    ensures exponent.isEven == old(exponent.isEven) && exponent.isPositive
    ensures Val(exponent.digits) >= 0 && Val(half.digits) == Val(exponent.digits) / 2
    ensures Val(half.digits) < Val(exponent.digits) || (Val(half.digits) == 0 && half.numDigits < exponent.numDigits)
  {
    ghost var p := exponent.isPositive;
    half := DivideByTwo(exponent);
    ValBounds(exponent.digits);
    HalfOfExponent(p, exponent.digits, half.isPositive, half.digits,
                   Signed(p, Val(exponent.digits)), 2, half.Value());
  }

  /**
   * One less than an odd exponent (bignumber.c:341-342): subtraction_big_numbers
   * of the number "1". Leading zeros make the exponent longer than "1",
   * which ranks it correctly, so the result is worth one less.
   */
  method DecrementExponent(exponent: BigNumber) returns (m: BigNumber)
    requires IsExponent(exponent) && Val(exponent.digits) % 2 == 1
    modifies exponent
    ensures fresh(m) && IsExponent(m)
    ensures exponent.digits == old(exponent.digits) && exponent.numDigits == old(exponent.numDigits)
    ensures exponent.isEven == old(exponent.isEven) && exponent.isPositive == old(exponent.isPositive)
    ensures Val(m.digits) == Val(exponent.digits) - 1
  {
    ghost var e := Val(exponent.digits);
    ValBounds(exponent.digits);
    var one := DigitNumber('1');
    OrderAgreesWithOne(exponent.digits);
    m := SubtractionBigNumbers(exponent, one);
    NormalisedSign(m);
    assert Val(m.digits) == e - 1;
  }

  /** The even branch of fast_exponentiation: halve the exponent, then square. */
  method EvenPower(base: BigNumber, exponent: BigNumber) returns (result: BigNumber)
    requires base.NonEmpty() && base != exponent && IsExponent(exponent)
    requires exponent.digits != [0] && exponent.isEven
    modifies exponent
    decreases Val(exponent.digits), exponent.numDigits, 0
    ensures fresh(result) && result.Valid() && Canonical(result.digits)
    ensures exponent.digits == old(exponent.digits) && exponent.numDigits == old(exponent.numDigits)
    ensures exponent.isEven == old(exponent.isEven) && exponent.isPositive
    ensures Val(result.digits) == Pow(Val(base.digits), Val(exponent.digits))
    ensures result.isPositive == (base.isPositive || Val(exponent.digits) % 2 == 0)
    ensures result.Value() == Pow(base.Value(), Val(exponent.digits))
  {
    ghost var e := Val(exponent.digits);
    ValParity(exponent.digits);
    var half := HalveExponent(exponent);
    var halfPower := FastExponentiation(base, half);
    result := MultiplyBigNumbers(halfPower, halfPower);
    PowSquare(Val(base.digits), e / 2);
    assert e == 2 * (e / 2);
    PowSigned(base.isPositive, Val(base.digits), e);
  }

  /** The odd branch of fast_exponentiation: subtract 1 from the exponent, then multiply by base. */
  method OddPower(base: BigNumber, exponent: BigNumber) returns (result: BigNumber)
    requires base.NonEmpty() && base != exponent && IsExponent(exponent)
    requires exponent.digits != [0] && !exponent.isEven
    modifies exponent
    decreases Val(exponent.digits), exponent.numDigits, 0
    ensures fresh(result) && result.Valid() && Canonical(result.digits)
    ensures exponent.digits == old(exponent.digits) && exponent.numDigits == old(exponent.numDigits)
    ensures exponent.isEven == old(exponent.isEven) && exponent.isPositive
    ensures Val(result.digits) == Pow(Val(base.digits), Val(exponent.digits))
    ensures result.isPositive == (base.isPositive || Val(exponent.digits) % 2 == 0)
    ensures result.Value() == Pow(base.Value(), Val(exponent.digits))
  {
    ghost var e := Val(exponent.digits);
    ValBounds(exponent.digits);
    ValParity(exponent.digits);
    var exponentMinusOne := DecrementExponent(exponent);
    OddPredecessor(e);
    var partialResult := FastExponentiation(base, exponentMinusOne);
    result := MultiplyBigNumbers(base, partialResult);
    PowSigned(base.isPositive, Val(base.digits), e);
  }
}
