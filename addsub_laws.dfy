/** What `Add` and `Sub` compute, stated on numbers: the value of a sum or
    difference that fits in the padded integer digits, the carry that a
    sum of operands of the same sign loses when it does not, the sign a
    zero result keeps, and how the two operations relate. */
module AddSubLaws {
  import opened Comparison
  import opened Digits
  import opened Decimals
  import opened Buffer
  import opened Arith
  import opened AddSub

  /** The padded digits of `d`, read together, are `d` scaled by `10^F`,
      and they have `L + F` places. */
  lemma AlignedValue(d: Decimal, L: nat, F: nat)
    requires d.Valid() && |d.intPart| <= L && |d.fracPart| <= F
    ensures Val(Aligned(d, L, F)) == Scaled(d, F) && Val(Aligned(d, L, F)) < Pow10(L + F)
  {
    var pi, pf := PadLeft(d.intPart, L), PadRight(d.fracPart, F);
    var s := Aligned(d, L, F);
    PadLeftKeeps(d.intPart, L);
    PadRightKeeps(d.fracPart, F);
    assert s == pi + pf && |pi| == L && |pf| == F;
    ValConcat(pi, pf);
    assert |pf| - |d.fracPart| == F - |d.fracPart|;
    SubstituteParts(Val(s), Val(pi), Val(pf), Pow10(F), Val(d.intPart), Val(d.fracPart), Pow10(F - |d.fracPart|));
    ValBound(s);
    assert |s| == L + F;
  }

  /** The magnitude of an operand is its padded number over `10^F`. */
  lemma OperandMagnitude(d: Decimal, L: nat, F: nat)
    requires d.Valid() && |d.intPart| <= L && |d.fracPart| <= F
    ensures Val(Aligned(d, L, F)) < Pow10(L + F)
    ensures Magnitude(d) == Val(Aligned(d, L, F)) as real / Pow10(F) as real
  {
    AlignedValue(d, L, F);
    ScaledMagnitude(d, F);
  }

  /** A number below `10^(L + F)`, built with `F` fraction digits, has that
      number over `10^F` as its magnitude. */
  lemma BuildMagnitude(v: nat, L: nat, F: nat, isPositive: bool)
    requires v < Pow10(L + F)
    ensures Magnitude(Build(v, L, F, isPositive)) == v as real / Pow10(F) as real
  {
    var d := Build(v, L, F, isPositive);
    BuildScaled(v, L, F, isPositive, d);
    ScaledMagnitude(d, F);
  }

  /** Scaled by `10^F`, the number built from `v` with `F` fraction digits
      is `v` again. */
  lemma BuildScaled(v: nat, L: nat, F: nat, isPositive: bool, d: Decimal)
    requires v < Pow10(L + F) && d == Build(v, L, F, isPositive)
    ensures d.Valid() && |d.fracPart| == F && Scaled(d, F) == v
  {
    var s := ToDigits(v, L + F);
    ValToDigits(v, L + F);
    BuildParts(v, L, F, isPositive, s, L + F);
    SplitScaled(s, L, isPositive, d);
  }

  /** Digits cut in two after `L` of them, scaled by the length of the
      second part, are the number of the digits. */
  lemma SplitScaled(s: string, L: nat, isPositive: bool, d: Decimal)
    requires AllDigits(s) && L <= |s| && d == Decimal(s[..L], s[L..], isPositive)
    ensures d.Valid() && Scaled(d, |s| - L) == Val(s)
  {
    assert d.intPart + d.fracPart == s;
    ScaledExact(d);
  }

  /** The spec functions on the padded numbers `x` and `y` of `a` and `b`,
      with their magnitudes and bounds. */
  lemma Operands(a: Decimal, b: Decimal) returns (x: nat, y: nat)
    requires a.Valid() && b.Valid()
    ensures var L, F := IntLen(a, b), FracLen(a, b);
      && x < Pow10(L + F) && y < Pow10(L + F)
      && Magnitude(a) == x as real / Pow10(F) as real && Magnitude(b) == y as real / Pow10(F) as real
      && AddSpec(a, b) == AddAligned(x, y, L, F, a.isPositive, b.isPositive)
      && SubSpec(a, b) == SubAligned(x, y, L, F, a.isPositive, b.isPositive)
  {
    var L, F := IntLen(a, b), FracLen(a, b);
    x, y := Val(Aligned(a, L, F)), Val(Aligned(b, L, F));
    OperandMagnitude(a, L, F);
    OperandMagnitude(b, L, F);
    SpecsOnAligned(a, b, a.isPositive, b.isPositive, x, y);
    assert a.(isPositive := a.isPositive) == a && b.(isPositive := b.isPositive) == b;
  }

  /** The signed value of a number below `10^(L + F)` built with `F`
      fraction digits. */
  lemma SignedBuild(v: nat, L: nat, F: nat, isPositive: bool, m: real)
    requires v < Pow10(L + F) && m == v as real / Pow10(F) as real
    ensures SignedValue(Build(v, L, F, isPositive)) == if isPositive then m else -m
  {
    BuildMagnitude(v, L, F, isPositive);
  }

  /** The signed value of the sum of padded numbers `x` and `y` that fits
      in `L + F` places. */
  lemma SumValue(x: nat, y: nat, L: nat, F: nat, isPositive: bool, mx: real, my: real)
    requires x + y < Pow10(L + F)
    requires mx == x as real / Pow10(F) as real && my == y as real / Pow10(F) as real
    ensures SignedValue(Build(x + y, L, F, isPositive)) == if isPositive then mx + my else -mx - my
  {
    RatioAdd(x, y, Pow10(F));
    SignedBuild(x + y, L, F, isPositive, mx + my);
  }

  /** The signed value of `Build(Diff(x, y))` with the sign of the larger
      of `x` and `y`: the signed sum of `x` and `-y`, or of `-x` and `y`. */
  lemma DiffValue(x: nat, y: nat, L: nat, F: nat, isPositive: bool, mx: real, my: real)
    requires x < Pow10(L + F) && y < Pow10(L + F)
    requires mx == x as real / Pow10(F) as real && my == y as real / Pow10(F) as real
    ensures x >= y ==> Magnitude(Build(Diff(x, y), L, F, isPositive)) == mx - my
    ensures x < y ==> Magnitude(Build(Diff(x, y), L, F, isPositive)) == my - mx
  {
    BuildMagnitude(Diff(x, y), L, F, isPositive);
    if x >= y {
      RatioSub(x, y, Pow10(F));
    } else {
      RatioSub(y, x, Pow10(F));
    }
  }

  /** The sum fits in the padded integer digits exactly when the padded
      numbers add up to less than `10^(L + F)`. */
  lemma FitsIff(x: nat, y: nat, L: nat, F: nat, mx: real, my: real)
    requires mx == x as real / Pow10(F) as real && my == y as real / Pow10(F) as real
    ensures mx + my < Pow10(L) as real <==> x + y < Pow10(L + F)
  {
    RatioAdd(x, y, Pow10(F));
    RatioBelow(x + y, Pow10(F), Pow10(L));
    Pow10Add(L, F);
  }

  /** `AddAligned` on padded numbers whose magnitudes are `mx` and `my`
      gives the signed sum, if a sum of operands of the same sign fits. */
  lemma AlignedAddValue(x: nat, y: nat, L: nat, F: nat, aPositive: bool, bPositive: bool, mx: real, my: real)
    requires x < Pow10(L + F) && y < Pow10(L + F)
    requires mx == x as real / Pow10(F) as real && my == y as real / Pow10(F) as real
    requires aPositive == bPositive ==> x + y < Pow10(L + F)
    ensures SignedValue(AddAligned(x, y, L, F, aPositive, bPositive))
         == (if aPositive then mx else -mx) + (if bPositive then my else -my)
  {
    if aPositive == bPositive {
      SameSignsAdd(x, y, L, F, aPositive);
      SumValue(x, y, L, F, aPositive, mx, my);
    } else {
      DiffValue(x, y, L, F, if x > y then aPositive else if x < y then bPositive else true, mx, my);
    }
  }

  /** `SubAligned` gives the signed difference, if a sum of operands of
      different signs fits. */
  lemma AlignedSubValue(x: nat, y: nat, L: nat, F: nat, aPositive: bool, bPositive: bool, mx: real, my: real)
    requires x < Pow10(L + F) && y < Pow10(L + F)
    requires mx == x as real / Pow10(F) as real && my == y as real / Pow10(F) as real
    requires aPositive != bPositive ==> x + y < Pow10(L + F)
    ensures SignedValue(SubAligned(x, y, L, F, aPositive, bPositive))
         == (if aPositive then mx else -mx) - (if bPositive then my else -my)
  {
    if aPositive != bPositive {
      SumValue(x, y, L, F, aPositive, mx, my);
    } else {
      DiffValue(x, y, L, F, if x >= y then aPositive else !bPositive, mx, my);
    }
  }

  /** The signed value of `d` in terms of its magnitude `m`. */
  lemma SignedOf(d: Decimal, m: real)
    requires d.Valid() && m == Magnitude(d)
    ensures SignedValue(d) == if d.isPositive then m else -m
  {
  }

  /** `a + b` is the sum of the signed values, as long as a sum of operands
      of the same sign stays below `10^L` for the padded integer length
      `L`. */
  lemma AddValue(a: Decimal, b: Decimal)
    requires a.Valid() && b.Valid()
    requires a.isPositive == b.isPositive ==> Magnitude(a) + Magnitude(b) < Pow10(IntLen(a, b)) as real
    ensures SignedValue(AddSpec(a, b)) == SignedValue(a) + SignedValue(b)
  {
    var L, F := IntLen(a, b), FracLen(a, b);
    var x, y := Operands(a, b);
    var ma, mb := Magnitude(a), Magnitude(b);
    FitsIff(x, y, L, F, ma, mb);
    AlignedAddValue(x, y, L, F, a.isPositive, b.isPositive, ma, mb);
    SignedOf(a, ma);
    SignedOf(b, mb);
  }

  /** `a - b` is the difference of the signed values, as long as a sum of
      operands of different signs stays below `10^L`. */
  lemma SubValue(a: Decimal, b: Decimal)
    requires a.Valid() && b.Valid()
    requires a.isPositive != b.isPositive ==> Magnitude(a) + Magnitude(b) < Pow10(IntLen(a, b)) as real
    ensures SignedValue(SubSpec(a, b)) == SignedValue(a) - SignedValue(b)
  {
    var L, F := IntLen(a, b), FracLen(a, b);
    var x, y := Operands(a, b);
    var ma, mb := Magnitude(a), Magnitude(b);
    FitsIff(x, y, L, F, ma, mb);
    AlignedSubValue(x, y, L, F, a.isPositive, b.isPositive, ma, mb);
    SignedOf(a, ma);
    SignedOf(b, mb);
  }

  /** A sum of operands of the same sign that reaches `10^L` loses the
      carry out of the leftmost integer column: its magnitude is `10^L`
      short, and the sign is kept. */
  lemma AddDropsCarry(a: Decimal, b: Decimal)
    requires a.Valid() && b.Valid() && a.isPositive == b.isPositive
    requires Magnitude(a) + Magnitude(b) >= Pow10(IntLen(a, b)) as real
    ensures Magnitude(AddSpec(a, b)) == Magnitude(a) + Magnitude(b) - Pow10(IntLen(a, b)) as real
    ensures AddSpec(a, b).isPositive == a.isPositive
  {
    var L, F := IntLen(a, b), FracLen(a, b);
    var x, y := Operands(a, b);
    FitsIff(x, y, L, F, Magnitude(a), Magnitude(b));
    SameSignsAdd(x, y, L, F, a.isPositive);
    DroppedCarryMagnitude(x, y, L, F, a.isPositive, Magnitude(a), Magnitude(b));
  }

  /** The magnitude of the sum of padded numbers that reaches
      `10^(L + F)`: `10^L` short of the sum of the magnitudes. */
  lemma DroppedCarryMagnitude(x: nat, y: nat, L: nat, F: nat, isPositive: bool, mx: real, my: real)
    requires x < Pow10(L + F) && y < Pow10(L + F) && x + y >= Pow10(L + F)
    requires mx == x as real / Pow10(F) as real && my == y as real / Pow10(F) as real
    ensures Magnitude(Build(x + y, L, F, isPositive)) == mx + my - Pow10(L) as real
  {
    var m := Pow10(L + F);
    var v := x + y - m;
    BuildDropsCarry(v, 1, L, F, isPositive, x + y);
    BuildMagnitude(v, L, F, isPositive);
    Pow10Add(L, F);
    RatioMinusCarry(x, y, v, Pow10(L), Pow10(F));
  }

  /** The value built from zero is zero, whatever its sign. */
  lemma BuildZero(L: nat, F: nat, isPositive: bool)
    ensures IsZero(Build(0, L, F, isPositive))
  {
    var s := ToDigits(0, L + F);
    ToDigitsZero(L + F);
    assert forall i :: 0 <= i < L ==> s[..L][i] == s[i];
    assert forall i :: 0 <= i < F ==> s[L..][i] == s[L + i];
  }

  /** `a + b == b + a`, digit for digit and sign for sign. */
  lemma AddCommutative(a: Decimal, b: Decimal)
    requires a.Valid() && b.Valid()
    ensures AddSpec(a, b) == AddSpec(b, a)
  {
    var L, F := IntLen(a, b), FracLen(a, b);
    assert IntLen(b, a) == L && FracLen(b, a) == F;
    var x, y := Val(Aligned(a, L, F)), Val(Aligned(b, L, F));
    SpecsOnAligned(a, b, a.isPositive, b.isPositive, x, y);
    SpecsOnAligned(b, a, b.isPositive, a.isPositive, y, x);
    assert a.(isPositive := a.isPositive) == a && b.(isPositive := b.isPositive) == b;
    assert AddAligned(x, y, L, F, a.isPositive, b.isPositive) == AddAligned(y, x, L, F, b.isPositive, a.isPositive);
  }

  /** `a - a` is zero with the sign of `a`: a negative operand gives a
      negative zero, printed `-0.0…`. */
  lemma SubSelf(a: Decimal)
    requires a.Valid()
    ensures IsZero(SubSpec(a, a)) && SubSpec(a, a).isPositive == a.isPositive
    ensures SubSpec(a, a).intPart == Zeros(|a.intPart|) && SubSpec(a, a).fracPart == Zeros(|a.fracPart|)
  {
    var L, F := IntLen(a, a), FracLen(a, a);
    var x, y := Operands(a, a);
    BuildZero(L, F, a.isPositive);
    ZerosAre(SubSpec(a, a).intPart);
    ZerosAre(SubSpec(a, a).fracPart);
  }

  /** `a + (-a)` is a non-negative zero whatever the sign of `a`. */
  lemma AddOpposite(a: Decimal)
    requires a.Valid()
    ensures IsZero(AddSpec(a, a.(isPositive := !a.isPositive)))
    ensures AddSpec(a, a.(isPositive := !a.isPositive)).isPositive
  {
    var b := a.(isPositive := !a.isPositive);
    var L, F := IntLen(a, b), FracLen(a, b);
    assert Aligned(b, L, F) == Aligned(a, L, F);
    var x, y := Operands(a, b);
    BuildZero(L, F, true);
  }

  /** Operands of opposite signs and equal magnitudes, such as `1.0` and
      `-1`, add up to a non-negative zero: the padded digits are equal and
      `add` gives such a tie the positive sign. */
  lemma AddCancels(a: Decimal, b: Decimal)
    requires a.Valid() && b.Valid() && a.isPositive != b.isPositive && Magnitude(a) == Magnitude(b)
    ensures AddSpec(a, b).isPositive && IsZero(AddSpec(a, b))
  {
    var L, F := IntLen(a, b), FracLen(a, b);
    var x, y := Operands(a, b);
    RatioOrder(x, y, Pow10(F));
    BuildZero(L, F, true);
  }

  /** `a - b` is `a + (-b)` except for the sign of a zero: where the
      magnitudes cancel, `sub` keeps the sign of `a` while `add` makes the
      zero non-negative. */
  lemma SubIsAddNegated(a: Decimal, b: Decimal)
    requires a.Valid() && b.Valid()
    ensures SubSpec(a, b).(isPositive := true) == AddSpec(a, b.(isPositive := !b.isPositive)).(isPositive := true)
    ensures SubSpec(a, b) != AddSpec(a, b.(isPositive := !b.isPositive)) ==> IsZero(SubSpec(a, b)) && !SubSpec(a, b).isPositive
  {
    var L, F := IntLen(a, b), FracLen(a, b);
    var x, y := Val(Aligned(a, L, F)), Val(Aligned(b, L, F));
    SpecsOnAligned(a, b, a.isPositive, b.isPositive, x, y);
    SpecsOnAligned(a, b, a.isPositive, !b.isPositive, x, y);
    assert a.(isPositive := a.isPositive) == a && b.(isPositive := b.isPositive) == b;
    if a.isPositive == b.isPositive && x == y {
      BuildZero(L, F, a.isPositive);
    }
  }

  /** `9 + 1` keeps one integer digit and drops the carry: the result is
      printed `0.`. */
  lemma NinePlusOneIsZero()
    ensures AddSpec(Decimal("9", "", true), Decimal("1", "", true)) == Decimal("0", "", true)
    ensures Display(AddSpec(Decimal("9", "", true), Decimal("1", "", true))) == "0."
  {
    var a, b := Decimal("9", "", true), Decimal("1", "", true);
    assert IntLen(a, b) == 1 && FracLen(a, b) == 0;
    assert Aligned(a, 1, 0) == "9" && Aligned(b, 1, 0) == "1";
    assert Val("9") == 9 && Val("1") == 1 by {
      assert "9"[..0] == "" && "1"[..0] == "";
    }
    SpecsOnAligned(a, b, true, true, 9, 1);
    assert a.(isPositive := true) == a && b.(isPositive := true) == b;
    SameSignsAdd(9, 1, 1, 0, true);
    assert ToDigits(10, 1) == "0";
  }

  /** `-1.5 - -1.5` is a negative zero, printed `-0.0`. */
  lemma NegativeZero()
    ensures Display(SubSpec(Decimal("1", "5", false), Decimal("1", "5", false))) == "-0.0"
  {
    var d := Decimal("1", "5", false);
    SubSelf(d);
    var r := SubSpec(d, d);
    assert Zeros(1) == "0";
    assert r == Decimal("0", "0", false);
  }
}
