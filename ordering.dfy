/** `PartialOrd for Decimal`.  A non-negative value is above a negative one;
    between values of the same sign the integer digit strings are compared
    first by length and then character by character, then the fraction
    digit strings character by character and finally by length, and the
    outcome is reversed when both are negative.  No zeros are trimmed, so
    the order is that of the written digits, not of the numbers. */
module Order {
  import opened Comparison
  import opened Digits
  import opened Decimals
  import opened Equality
  import opened Arith

  /** The order of the digit strings alone: integer lengths, then integer
      digits, then fraction digits (a proper prefix is smaller). */
  function DigitOrder(a: Decimal, b: Decimal): Ordering {
    if |a.intPart| != |b.intPart| then CompareNat(|a.intPart|, |b.intPart|)
    else CompareTuple(a.intPart, a.fracPart, b.intPart, b.fracPart)
  }

  /** The ordering `partial_cmp` returns: a non-negative value is above a
      negative one, two negatives order as their digits in reverse, and
      `Equal` needs equal signs and integer lengths. */
  function Cmp(a: Decimal, b: Decimal): (r: Ordering)
    ensures a.isPositive != b.isPositive ==> r == (if a.isPositive then Greater else Less)
    ensures !a.isPositive && !b.isPositive ==> r == DigitOrder(b, a)
    ensures r == Equal ==> a.isPositive == b.isPositive && |a.intPart| == |b.intPart|
  {
    DigitOrderReverse(a, b);
    if a.isPositive && !b.isPositive then Greater
    else if !a.isPositive && b.isPositive then Less
    else if a.isPositive then DigitOrder(a, b)
    else DigitOrder(a, b).Reverse()
  }

  /** `partial_cmp`, with its loops over the zipped characters and its early
      returns. */
  method PartialCmp(a: Decimal, b: Decimal) returns (o: Ordering)
    ensures o == Cmp(a, b)
  {
    if a.isPositive && !b.isPositive {
      return Greater;
    }
    if !a.isPositive && b.isPositive {
      return Less;
    }
    var lenCmp := CompareNat(|a.intPart|, |b.intPart|);
    if lenCmp != Equal {
      return if a.isPositive then lenCmp else lenCmp.Reverse();
    }
    var i := 0;
    while i < |a.intPart|
      invariant 0 <= i <= |a.intPart|
      invariant a.intPart[..i] == b.intPart[..i]
    {
      var valCmp := CompareChar(a.intPart[i], b.intPart[i]);
      if valCmp != Equal {
        CompareStrFrom(a.intPart, b.intPart, i);
        return if a.isPositive then valCmp else valCmp.Reverse();
      }
      assert a.intPart[..i + 1] == a.intPart[..i] + [a.intPart[i]];
      assert b.intPart[..i + 1] == b.intPart[..i] + [b.intPart[i]];
      i := i + 1;
    }
    assert a.intPart == a.intPart[..i] && b.intPart == b.intPart[..i];
    CompareStrEqual(a.intPart, b.intPart);
    var n := if |a.fracPart| < |b.fracPart| then |a.fracPart| else |b.fracPart|;
    i := 0;
    while i < n
      invariant 0 <= i <= n
      invariant a.fracPart[..i] == b.fracPart[..i]
    {
      var valCmp := CompareChar(a.fracPart[i], b.fracPart[i]);
      if valCmp != Equal {
        CompareStrFrom(a.fracPart, b.fracPart, i);
        return if a.isPositive then valCmp else valCmp.Reverse();
      }
      assert a.fracPart[..i + 1] == a.fracPart[..i] + [a.fracPart[i]];
      assert b.fracPart[..i + 1] == b.fracPart[..i] + [b.fracPart[i]];
      i := i + 1;
    }
    CompareStrFrom(a.fracPart, b.fracPart, n);
    lenCmp := CompareNat(|a.fracPart|, |b.fracPart|);
    if lenCmp != Equal {
      return if a.isPositive then lenCmp else lenCmp.Reverse();
    }
    assert a.fracPart == a.fracPart[..n] && b.fracPart == b.fracPart[..n];
    return Equal;
  }

  lemma DigitOrderReverse(a: Decimal, b: Decimal)
    ensures DigitOrder(b, a) == DigitOrder(a, b).Reverse()
  {
    CompareStrReverse(a.intPart, b.intPart);
    CompareStrReverse(a.fracPart, b.fracPart);
    CompareStrEqual(a.intPart, b.intPart);
  }

  /** Swapping the operands reverses the outcome. */
  lemma CmpReverse(a: Decimal, b: Decimal)
    ensures Cmp(b, a) == Cmp(a, b).Reverse()
  {
    DigitOrderReverse(a, b);
  }

  /** `partial_cmp` answers `Equal` only for the very same digits and sign:
      `1.1` and `1.10`, or `7` and `007`, are not `Equal`. */
  lemma CmpEqualIff(a: Decimal, b: Decimal)
    ensures Cmp(a, b) == Equal <==> a == b
  {
    CompareStrEqual(a.intPart, b.intPart);
    CompareStrEqual(a.fracPart, b.fracPart);
  }

  lemma DigitOrderTransitive(a: Decimal, b: Decimal, c: Decimal)
    requires DigitOrder(a, b) != Greater && DigitOrder(b, c) != Greater
    ensures DigitOrder(a, c) != Greater
  {
    if |a.intPart| == |b.intPart| == |c.intPart| {
      CompareStrEqual(a.intPart, b.intPart);
      CompareStrEqual(b.intPart, c.intPart);
      CompareStrEqual(a.intPart, c.intPart);
      CompareStrTransitive(a.intPart, b.intPart, c.intPart);
      if a.intPart == b.intPart == c.intPart {
        CompareStrTransitive(a.fracPart, b.fracPart, c.fracPart);
      } else if a.intPart == c.intPart {
        CompareStrReverse(a.intPart, b.intPart);
      }
    }
  }

  /** The order is transitive. */
  lemma CmpTransitive(a: Decimal, b: Decimal, c: Decimal)
    requires Cmp(a, b) != Greater && Cmp(b, c) != Greater
    ensures Cmp(a, c) != Greater
  {
    if a.isPositive == b.isPositive == c.isPositive {
      if a.isPositive {
        DigitOrderTransitive(a, b, c);
      } else {
        DigitOrderReverse(a, b);
        DigitOrderReverse(b, c);
        DigitOrderReverse(a, c);
        DigitOrderTransitive(c, b, a);
      }
    }
  }

  /** On operands already padded to the same integer and fraction lengths
      (as `Add` and `Sub` pad them) the order is the order of the signed
      values, except that a non-negative zero is above a negative zero. */
  lemma CmpAlignedIsNumeric(a: Decimal, b: Decimal)
    requires a.Valid() && b.Valid()
    requires |a.intPart| == |b.intPart| && |a.fracPart| == |b.fracPart|
    requires a.isPositive != b.isPositive ==> !(IsZero(a) && IsZero(b))
    ensures Cmp(a, b) == CompareReal(SignedValue(a), SignedValue(b))
  {
    var F := |a.fracPart|;
    if a.isPositive == b.isPositive {
      CompareStrConcat(a.intPart, a.fracPart, b.intPart, b.fracPart);
      ValConcat(a.intPart, a.fracPart);
      ValConcat(b.intPart, b.fracPart);
      CompareStrIsNumeric(a.intPart + a.fracPart, b.intPart + b.fracPart);
      assert DigitOrder(a, b) == CompareNat(Scaled(a, F), Scaled(b, F));
      ScaledMagnitude(a, F);
      ScaledMagnitude(b, F);
      RatioOrder(Scaled(a, F), Scaled(b, F), Pow10(F));
    } else {
      IsZeroIffZero(a);
      IsZeroIffZero(b);
      MagnitudeNonNegative(a);
      MagnitudeNonNegative(b);
    }
  }

  lemma MagnitudeNonNegative(d: Decimal)
    requires d.Valid()
    ensures Magnitude(d) >= 0.0
  {
    ValBound(d.fracPart);
    FractionBelowOne(Val(d.fracPart), Pow10(|d.fracPart|));
  }

  /** Leading zeros count: `007` is above `10`, although seven is less than
      ten. */
  lemma LeadingZerosOutrank()
    ensures Cmp(Decimal("007", "", true), Decimal("10", "", true)) == Greater
    ensures Magnitude(Decimal("007", "", true)) < Magnitude(Decimal("10", "", true))
  {
    assert Val("007") == 7 by {
      assert "007"[..2] == "00" && "00"[..1] == "0" && "0"[..0] == "";
    }
    assert Val("10") == 10 by {
      assert "10"[..1] == "1" && "1"[..0] == "";
    }
  }

  /** Equality and ordering disagree on trailing fraction zeros: `1.1`
      equals `1.10` under `eq`, yet `partial_cmp` puts it below. */
  lemma TrailingZerosOrderBelow()
    ensures Eq(Decimal("1", "1", true), Decimal("1", "10", true))
    ensures Cmp(Decimal("1", "1", true), Decimal("1", "10", true)) == Less
  {
    assert "10"[..1] == "1";
    assert "1"[1..] == "" && "10"[1..] == "0";
  }
}
