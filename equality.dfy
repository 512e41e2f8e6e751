/** `PartialEq for Decimal`: the integer parts are compared with leading
    zeros trimmed, the fraction parts with trailing zeros trimmed, and the
    signs exactly, so a zero of one sign never equals a zero of the other. */
module Equality {
  import opened Digits
  import opened Decimals
  import opened Arith

  /** `eq`; values it relates are zeros together or not at all. */
  predicate Eq(a: Decimal, b: Decimal)
    ensures Eq(a, b) ==> IsZero(a) == IsZero(b)
  {
    TrimStartEmpty(a.intPart);
    TrimStartEmpty(b.intPart);
    TrimEndEmpty(a.fracPart);
    TrimEndEmpty(b.fracPart);
    && TrimStart(a.intPart) == TrimStart(b.intPart)
    && TrimEnd(a.fracPart) == TrimEnd(b.fracPart)
    && a.isPositive == b.isPositive
  }

  lemma EqIsEquivalence(a: Decimal, b: Decimal, c: Decimal)
    ensures Eq(a, a)
    ensures Eq(a, b) ==> Eq(b, a)
    ensures Eq(a, b) && Eq(b, c) ==> Eq(a, c)
  {
  }

  /** Zeros added on the left of the integer digits or on the right of the
      fraction digits do not change equality. */
  lemma EqIgnoresPadding(a: Decimal, intZeros: nat, fracZeros: nat)
    ensures Eq(Decimal(Zeros(intZeros) + a.intPart, a.fracPart + Zeros(fracZeros), a.isPositive), a)
  {
    TrimStartZeros(Zeros(intZeros), a.intPart);
    TrimEndZeros(a.fracPart, Zeros(fracZeros));
  }

  /** Zero carries a sign: a non-negative zero never equals a negative zero. */
  lemma SignedZerosDiffer(a: Decimal, b: Decimal)
    requires IsZero(a) && IsZero(b) && a.isPositive && !b.isPositive
    ensures !Eq(a, b)
  {
  }

  /** The fraction digits denote the same fraction exactly when they agree
      once their trailing zeros are trimmed. */
  lemma TrimEndIffFraction(s: string, t: string)
    requires AllDigits(s) && AllDigits(t)
    ensures TrimEnd(s) == TrimEnd(t) <==> Val(s) * Pow10(|t|) == Val(t) * Pow10(|s|)
  {
    var u, qs := TrimEndScale(s);
    var v, qt := TrimEndScale(t);
    var crossTrimmed := Val(u) * Pow10(|v|) == Val(v) * Pow10(|u|);
    assert Val(s) * Pow10(|t|) == Val(t) * Pow10(|s|) <==> crossTrimmed by {
      CancelCross(Val(s), Pow10(|s|), Val(t), Pow10(|t|), Val(u), Val(v), qs, qt, Pow10(|u|), Pow10(|v|));
    }
    assert u == v <==> crossTrimmed by {
      if crossTrimmed {
        TrimmedFractionUnique(u, v);
      }
    }
  }

  /** Trimming trailing zeros divides both the number and the scale
      `10^|s|` by the same power of ten. */
  lemma TrimEndScale(s: string) returns (u: string, q: nat)
    requires AllDigits(s)
    ensures u == TrimEnd(s) && AllDigits(u) && q > 0
    ensures Val(s) == Val(u) * q && Pow10(|s|) == Pow10(|u|) * q
  {
    u := TrimEnd(s);
    q := Pow10(|s| - |u|);
    assert s == u + s[|u|..];
    ValTrailingZeros(u, s[|u|..]);
    Pow10Add(|u|, |s| - |u|);
  }

  /** Digit strings without trailing zeros whose fractions are equal
      (`Val(u) / 10^|u| == Val(v) / 10^|v|`) are the same string. */
  lemma TrimmedFractionUnique(u: string, v: string)
    requires AllDigits(u) && AllDigits(v)
    requires u == [] || u[|u| - 1] != '0'
    requires v == [] || v[|v| - 1] != '0'
    requires Val(u) * Pow10(|v|) == Val(v) * Pow10(|u|)
    ensures u == v
  {
    if |u| < |v| {
      ShorterFractionDiffers(u, v);
    } else if |v| < |u| {
      ShorterFractionDiffers(v, u);
    } else {
      CancelFactor(Val(u), Val(v), Pow10(|u|));
      ToDigitsVal(u);
      ToDigitsVal(v);
    }
  }

  /** A longer digit string ending in a non-zero digit never denotes the same
      fraction as a shorter one: its number would be a multiple of ten. */
  lemma ShorterFractionDiffers(u: string, v: string)
    requires AllDigits(u) && AllDigits(v) && |u| < |v| && v[|v| - 1] != '0'
    ensures Val(u) * Pow10(|v|) != Val(v) * Pow10(|u|)
  {
    var k := |v| - |u|;
    Pow10Add(|u|, k);
    var pu, pk := Pow10(|u|), Pow10(k - 1);
    assert Pow10(|v|) == pu * (10 * pk);
    var q, last := Val(v[..|v| - 1]), DigitValue(v[|v| - 1]);
    assert Val(v) == q * 10 + last;
    ScaledNotMultipleOfTen(Val(u), pu, pk, q, last);
  }

  /** For values the parser or the arithmetic produce, `eq` holds exactly
      when the signs are the same and the magnitudes are equal; so it is
      equality of numbers except that a zero's sign still matters. */
  lemma EqIffSameValue(a: Decimal, b: Decimal)
    requires a.Valid() && b.Valid()
    ensures Eq(a, b) <==> a.isPositive == b.isPositive && Magnitude(a) == Magnitude(b)
  {
    TrimStartIffVal(a.intPart, b.intPart);
    TrimEndIffFraction(a.fracPart, b.fracPart);
    ValBound(a.fracPart);
    ValBound(b.fracPart);
    SumOfRatioEq(Val(a.intPart), Val(a.fracPart), Pow10(|a.fracPart|),
                 Val(b.intPart), Val(b.fracPart), Pow10(|b.fracPart|));
  }
}
