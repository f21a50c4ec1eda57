/**
 * The big-number record and the digit-chain helpers: appending a digit at
 * either end, magnitude comparison, sign and order selection for a
 * same-sign subtraction, leading-zero removal, partial copy, and parsing.
 *
 * A node pointer into a chain is modelled as an index into `digits`; the
 * index -1 (or |digits|, walking forwards) stands for NULL.
 */
module Numbers {
  import opened Digits

  /**
   * struct BigNumber. `digits` is the chain first_digit .. last_digit, most
   * significant first; `numDigits` and `isEven` are the record's caches.
   */
  class BigNumber {
    var isPositive: bool
    var isEven: bool
    var numDigits: int
    var digits: seq<int>

    /** The record create_big_number allocates before it reads its string. */
    constructor ()
      ensures isPositive && numDigits == 0 && digits == []
    {
      isPositive := true;
      numDigits := 0;
      digits := [];
      isEven := *;  // left uninitialised by the source until a digit is added at the end
    }

    /** The digit count cache is right and every node holds a decimal digit. */
    ghost predicate Valid()
      reads this
    {
      numDigits == |digits| && IsDigits(digits)
    }

    /** A number operations can be applied to: valid with at least one digit. */
    ghost predicate NonEmpty()
      reads this
    {
      Valid() && |digits| >= 1
    }

    /** The parity cache agrees with the least-significant digit. */
    ghost predicate ParityValid()
      reads this
    {
      |digits| >= 1 && isEven == (digits[|digits| - 1] % 2 == 0)
    }

    /** No leading zeros, and zero is never negative. */
    ghost predicate Normalised()
      reads this
    {
      Canonical(digits) && (digits == [0] ==> isPositive)
    }

    /** Signed value: sign times the value of the digits. */
    ghost function Value(): int
      reads this
    {
      Signed(isPositive, Val(digits))
    }
  }

  /** A magnitude with a sign bit attached; a negative zero is worth 0. */
  function Signed(positive: bool, m: int): int
  {
    if positive then m else -m
  }

  /** A normalised number is non-negative exactly when its sign bit says so. */
  lemma {:induction false} NormalisedSign(n: BigNumber)
    requires n.Normalised()
    ensures n.isPositive <==> n.Value() >= 0
  {
    ValBounds(n.digits);
    CanonicalZero(n.digits);
  }

  /** add_node_to_big_number: a new most-significant digit, or a new least-significant one. */
  method AddNodeToBigNumber(n: BigNumber, digit: int, insertAtEnd: bool)
    requires n.numDigits == |n.digits|
    modifies n
    ensures n.digits == if insertAtEnd then old(n.digits) + [digit] else [digit] + old(n.digits)
    ensures n.numDigits == old(n.numDigits) + 1
    ensures n.isEven == if insertAtEnd then digit % 2 == 0 else old(n.isEven)
    ensures n.isPositive == old(n.isPositive)
    ensures old(n.Valid()) && 0 <= digit <= 9 ==> n.Valid()
  {
    if !insertAtEnd {
      n.digits := [digit] + n.digits;
    } else {
      n.digits := n.digits + [digit];
      n.isEven := digit % 2 == 0;
    }
    n.numDigits := n.numDigits + 1;
  }

  /**
   * compare_big_numbers_modules: 1, -1 or 0 as |x| is ranked above, below or
   * equal to |y|, by digit count first and then by the first differing digit.
   */
  method CompareModules(x: BigNumber, y: BigNumber) returns (r: int)
    requires x.Valid() && y.Valid()
    ensures r == Cmp(x.digits, y.digits)
    ensures r == 0 <==> x.digits == y.digits
    ensures Canonical(x.digits) && Canonical(y.digits) ==> r == Sign(Val(x.digits) - Val(y.digits))
  {
    if Canonical(x.digits) && Canonical(y.digits) {
      CmpIsValueOrder(x.digits, y.digits);
    }
    var lenX, lenY := x.numDigits, y.numDigits;
    if lenX > lenY {
      return 1;
    }
    if lenX < lenY {
      return -1;
    }
    r := CompareDigits(x, y);
  }

  /** The digit-by-digit loop of compare_big_numbers_modules on operands of equal length. */
  method CompareDigits(x: BigNumber, y: BigNumber) returns (r: int)
    requires x.Valid() && y.Valid() && x.numDigits == y.numDigits
    ensures r == LexCmp(x.digits, y.digits)
  {
    var nodeX, nodeY := 0, 0;
    while nodeX < x.numDigits && nodeY < y.numDigits
      invariant 0 <= nodeX == nodeY <= x.numDigits
      invariant LexCmp(x.digits, y.digits) == LexCmp(x.digits[nodeX..], y.digits[nodeY..])
    {
      if x.digits[nodeX] > y.digits[nodeY] {
        return 1;
      }
      if x.digits[nodeX] < y.digits[nodeY] {
        return -1;
      }
      assert x.digits[nodeX..][1..] == x.digits[nodeX + 1..];
      assert y.digits[nodeY..][1..] == y.digits[nodeY + 1..];
      nodeX, nodeY := nodeX + 1, nodeY + 1;
    }
    return 0;
  }

  /**
   * determine_sign_in_subtraction: for two operands of the same sign, whether
   * x - y is positive; equal magnitudes give false.
   */
  method DetermineSignInSubtraction(x: BigNumber, y: BigNumber) returns (positive: bool)
    requires x.Valid() && y.Valid()
    ensures positive == if x.isPositive then Cmp(x.digits, y.digits) == 1 else Cmp(x.digits, y.digits) == -1
    ensures Canonical(x.digits) && Canonical(y.digits) ==>
      positive == if x.isPositive then Val(x.digits) > Val(y.digits) else Val(x.digits) < Val(y.digits)
  {
    var comparison := CompareModules(x, y);
    if !x.isPositive {
      positive := comparison == -1;
    } else {
      positive := comparison == 1;
    }
  }

  /**
   * determine_order_of_subtraction: the traversal pointers node_x and node_y
   * start at x and y and are swapped when |x| is ranked below |y|; on equal
   * digit sequences a single 0 is put in front of result and the pointers stay.
   */
  method DetermineOrderOfSubtraction(x: BigNumber, y: BigNumber, result: BigNumber)
    returns (nodeX: BigNumber, nodeY: BigNumber)
    requires x.Valid() && y.Valid() && result.numDigits == |result.digits|
    requires result != x && result != y
    modifies result
    ensures Cmp(x.digits, y.digits) == -1 ==> nodeX == y && nodeY == x
    ensures Cmp(x.digits, y.digits) != -1 ==> nodeX == x && nodeY == y
    ensures result.digits == if x.digits == y.digits then [0] + old(result.digits) else old(result.digits)
    ensures result.numDigits == |result.digits|
    ensures result.isPositive == old(result.isPositive) && result.isEven == old(result.isEven)
  {
    nodeX, nodeY := x, y;
    var comparison := CompareModules(x, y);
    if comparison == -1 {
      nodeX, nodeY := y, x;
    } else if comparison == 0 {
      AddNodeToBigNumber(result, 0, false);
    }
  }

  /**
   * remove_zeros_from_left: unlink leading zero nodes while more than one node
   * remains, then force the lone digit 0 positive.
   */
  method RemoveZerosFromLeft(n: BigNumber)
    requires n.numDigits == |n.digits| >= 1
    modifies n
    ensures n.digits == StripZeros(old(n.digits))
    ensures n.numDigits == |n.digits|
    ensures n.isPositive == (old(n.isPositive) || n.digits == [0])
    ensures n.isEven == old(n.isEven)
    ensures Val(n.digits) == old(Val(n.digits))
    ensures old(n.Valid()) ==> n.Valid() && n.Normalised()
    ensures old(n.ParityValid()) ==> n.ParityValid()
  {
    ghost var orig := n.digits;
    while n.digits[0] == 0 && n.numDigits > 1
      invariant n.numDigits == |n.digits| >= 1
      invariant StripZeros(n.digits) == StripZeros(orig)
      invariant n.isPositive == old(n.isPositive) && n.isEven == old(n.isEven)
      decreases n.numDigits
    {
      n.digits := n.digits[1..];
      n.numDigits := n.numDigits - 1;
    }
    assert n.digits == StripZeros(orig);
    if n.numDigits == 1 && n.digits[0] == 0 {
      n.isPositive := true;
    }
  }

  /**
   * copy_big_number: append to dest exactly tam digits of orig; the tam most
   * significant ones (inLeft false, added at the end) or the tam least
   * significant ones in their order (inLeft true, each added at the front).
   */
  method CopyBigNumber(dest: BigNumber, orig: BigNumber, tam: nat, inLeft: bool)
    requires dest != orig && dest.numDigits == |dest.digits| && orig.Valid()
    requires tam <= orig.numDigits
    modifies dest
    ensures dest.digits == if inLeft then orig.digits[|orig.digits| - tam..] + old(dest.digits)
                           else old(dest.digits) + orig.digits[..tam]
    ensures dest.numDigits == old(dest.numDigits) + tam
    ensures dest.isPositive == old(dest.isPositive)
    ensures dest.isEven == if !inLeft && tam > 0 then orig.digits[tam - 1] % 2 == 0 else old(dest.isEven)
    ensures old(dest.Valid()) ==> dest.Valid()
  {
    if !inLeft {
      CopyFirstDigits(dest, orig, tam);
    } else {
      CopyLastDigits(dest, orig, tam);
    }
  }

  /** The in_left == false branch of copy_big_number: the first tam digits, walking forwards. */
  method CopyFirstDigits(dest: BigNumber, orig: BigNumber, tam: nat)
    requires dest != orig && dest.numDigits == |dest.digits| && orig.Valid()
    requires tam <= orig.numDigits
    modifies dest
    ensures dest.digits == old(dest.digits) + orig.digits[..tam]
    ensures dest.numDigits == old(dest.numDigits) + tam
    ensures dest.isPositive == old(dest.isPositive)
    ensures dest.isEven == if tam > 0 then orig.digits[tam - 1] % 2 == 0 else old(dest.isEven)
    ensures old(dest.Valid()) ==> dest.Valid()
  {
    ghost var os, wasValid := orig.digits, dest.Valid();
    var node := 0;
    var i := 0;
    while i < tam
      invariant 0 <= i <= tam && node == i
      invariant dest.digits == old(dest.digits) + os[..i]
      invariant dest.numDigits == old(dest.numDigits) + i
      invariant dest.isPositive == old(dest.isPositive)
      invariant dest.isEven == if i > 0 then os[i - 1] % 2 == 0 else old(dest.isEven)
      invariant wasValid ==> dest.Valid()
    {
      AddNodeToBigNumber(dest, orig.digits[node], true);
      assert os[..i + 1] == os[..i] + [os[i]];
      node := node + 1;
      i := i + 1;
    }
  }

  /** The in_left == true branch of copy_big_number: the last tam digits, walking backwards. */
  method CopyLastDigits(dest: BigNumber, orig: BigNumber, tam: nat)
    requires dest != orig && dest.numDigits == |dest.digits| && orig.Valid()
    requires tam <= orig.numDigits
    modifies dest
    ensures dest.digits == orig.digits[|orig.digits| - tam..] + old(dest.digits)
    ensures dest.numDigits == old(dest.numDigits) + tam
    ensures dest.isPositive == old(dest.isPositive) && dest.isEven == old(dest.isEven)
    ensures old(dest.Valid()) ==> dest.Valid()
  {
    ghost var os, wasValid := orig.digits, dest.Valid();
    var node := orig.numDigits - 1;
    var i := 0;
    while i < tam
      invariant 0 <= i <= tam && node == |os| - 1 - i
      invariant dest.digits == os[node + 1..] + old(dest.digits)
      invariant dest.numDigits == old(dest.numDigits) + i
      invariant dest.isPositive == old(dest.isPositive) && dest.isEven == old(dest.isEven)
      invariant wasValid ==> dest.Valid()
    {
      AddNodeToBigNumber(dest, orig.digits[node], false);
      assert os[node..] == [os[node]] + os[node + 1..];
      node := node - 1;
      i := i + 1;
    }
    assert node + 1 == |os| - tam;
  }

  /** Length of the optional leading '-' of a number's text. */
  function SignLength(s: string): nat
  {
    if |s| > 0 && s[0] == '-' then 1 else 0
  }

  /** Everything after the optional sign is a decimal digit. */
  predicate IsNumberText(s: string)
  {
    forall i :: SignLength(s) <= i < |s| ==> IsDigitChar(s[i])
  }

  /**
   * create_big_number: a leading '-' makes the number negative; every later
   * character becomes one digit added at the least-significant end.
   */
  method CreateBigNumber(s: string) returns (r: BigNumber)
    ensures fresh(r) && r.numDigits == |r.digits|
    ensures IsNumberText(s) ==> r.Valid()
    ensures r.isPositive == (SignLength(s) == 0)
    ensures r.digits == DigitValues(s[SignLength(s)..])
    ensures r.numDigits == |s| - SignLength(s)
    ensures r.numDigits >= 1 ==> r.ParityValid()
  {
    r := new BigNumber();
    var i := 0;
    if |s| > 0 && s[0] == '-' {
      r.isPositive := false;
      i := i + 1;
    }
    ghost var start := i;
    while i < |s|
      invariant start == SignLength(s) <= i <= |s|
      invariant r.numDigits == |r.digits| && r.isPositive == (start == 0)
      invariant IsNumberText(s) ==> r.Valid()
      invariant r.digits == DigitValues(s[start..i])
      invariant |r.digits| >= 1 ==> r.ParityValid()
    {
      var digit := s[i] as int - '0' as int;
      DigitValuesStep(s, start, i);
      AddNodeToBigNumber(r, digit, true);
      i := i + 1;
    }
    assert s[start..] == s[start..|s|];
  }

  /** Parsing the decimal text of n gives the canonical digits of n. */
  method CreateFromNat(n: nat) returns (r: BigNumber)
    ensures fresh(r) && r.Valid() && r.Normalised() && r.ParityValid()
    ensures r.isPositive && Val(r.digits) == n
  {
    var s := NatToString(n);
    assert s[SignLength(s)..] == s;
    r := CreateBigNumber(s);
  }
}
