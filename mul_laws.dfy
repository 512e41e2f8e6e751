/** What `Mul` computes, stated on numbers: the magnitude of a product is
    the product of the magnitudes (the result has room for every digit, so
    nothing is dropped), the sign is positive exactly when the signs agree
    (a zero product included), and the operation is commutative, has `1`
    as its unit and respects `==`.  Products of magnitudes are stated over
    real parameters (`ma`, `mb`, `sa`, `sb`) that the preconditions tie to
    the operands' magnitudes or signed values. */
module MultiplyLaws {
  import opened Digits
  import opened Decimals
  import opened Buffer
  import opened Arith
  import opened AddSub
  import opened AddSubLaws
  import opened Equality
  import opened Multiply

  /** Trimming leading integer zeros and trailing fraction zeros keeps the
      magnitude. */
  lemma TrimmedMagnitude(p: Decimal)
    requires p.Valid()
    ensures Magnitude(Trimmed(p)) == Magnitude(p)
  {
    var t := Trimmed(p);
    var i, f := p.intPart, p.fracPart;
    TrimmedOf(p);
    assert t.intPart == TrimZeros(i, true) && t.fracPart == TrimZeros(f, false);
    ValTrimLeading(i);
    ValTrimTrailing(f);
    var g := t.fracPart;
    CrossRatio(Val(f), Pow10(|f|), Val(g), Pow10(|g|));
    assert Magnitude(t) == Val(t.intPart) as real + Val(g) as real / Pow10(|g|) as real;
  }

  /** The untrimmed product of `mul` is the number `v` of the product of
      the padded numbers `x` and `y`, which fits in the `L2 + F2` digits
      given to it, twice the padded lengths. */
  lemma ProductNumber(a: Decimal, b: Decimal) returns (x: nat, y: nat, v: nat, L2: nat, F2: nat)
    requires a.Valid() && b.Valid()
    ensures x == Val(Aligned(a, IntLen(a, b), FracLen(a, b))) && y == Val(Aligned(b, IntLen(a, b), FracLen(a, b)))
    ensures L2 == 2 * IntLen(a, b) && F2 == 2 * FracLen(a, b) && v == x * y && v < Pow10(L2 + F2)
    ensures MulSpec(a, b) == Trimmed(Build(v, L2, F2, a.isPositive == b.isPositive))
  {
    var L, F := IntLen(a, b), FracLen(a, b);
    L2, F2 := 2 * L, 2 * F;
    x, y := Val(Aligned(a, L, F)), Val(Aligned(b, L, F));
    AlignedValue(a, L, F);
    AlignedValue(b, L, F);
    Pow10Sum(L + F, L + F, L2 + F2);
    v := Times(x, y);
    ProductBelow(x, y, Pow10(L + F), Pow10(L2 + F2), v);
    MulSpecOn(a, b, x, y);
  }

  /** The magnitudes of the operands and of the product as ratios over
      powers of ten. */
  lemma ProductRatios(a: Decimal, b: Decimal) returns (x: nat, y: nat, v: nat, p: nat, pp: nat)
    requires a.Valid() && b.Valid()
    ensures p > 0 && Magnitude(a) == x as real / p as real && Magnitude(b) == y as real / p as real
    ensures pp > 0 && pp == p * p && v == x * y && Magnitude(MulSpec(a, b)) == v as real / pp as real
  {
    var L2, F2;
    x, y, v, L2, F2 := ProductNumber(a, b);
    var F := FracLen(a, b);
    OperandMagnitude(a, IntLen(a, b), F);
    OperandMagnitude(b, IntLen(a, b), F);
    Pow10Sum(F, F, F2);
    p, pp := Pow10(F), Pow10(F2);
    var product := Build(v, L2, F2, a.isPositive == b.isPositive);
    BuildMagnitude(v, L2, F2, a.isPositive == b.isPositive);
    TrimmedMagnitude(product);
  }

  /** The magnitude of `a * b` is exactly the product `ma * mb` of the
      operands' magnitudes. */
  lemma MulMagnitude(a: Decimal, b: Decimal, ma: real, mb: real)
    requires a.Valid() && b.Valid() && ma == Magnitude(a) && mb == Magnitude(b)
    ensures Magnitude(MulSpec(a, b)) == ma * mb
  {
    var x, y, v, p, pp := ProductRatios(a, b);
    ProductChain(Magnitude(MulSpec(a, b)), ma, mb, x, y, v, p, pp);
  }

  /** The signed value of `a * b` is the product `sa * sb` of the operands'
      signed values, and its sign is positive exactly when the operands'
      signs agree. */
  lemma MulValue(a: Decimal, b: Decimal, sa: real, sb: real)
    requires a.Valid() && b.Valid() && sa == SignedValue(a) && sb == SignedValue(b)
    ensures SignedValue(MulSpec(a, b)) == sa * sb
    ensures MulSpec(a, b).isPositive <==> a.isPositive == b.isPositive
  {
    var ma, mb := Magnitude(a), Magnitude(b);
    MulMagnitude(a, b, ma, mb);
    SignRule(MulSpec(a, b), a, b, ma, mb, sa, sb);
  }

  /** A product is zero exactly when an operand is, whatever its sign. */
  lemma MulZeroIff(a: Decimal, b: Decimal)
    requires a.Valid() && b.Valid()
    ensures IsZero(MulSpec(a, b)) <==> IsZero(a) || IsZero(b)
  {
    var r := MulSpec(a, b);
    var ma, mb := Magnitude(a), Magnitude(b);
    MulMagnitude(a, b, ma, mb);
    IsZeroIffZero(r);
    IsZeroIffZero(a);
    IsZeroIffZero(b);
    ZeroProduct(Magnitude(r), ma, mb);
  }

  lemma MulCommutative(a: Decimal, b: Decimal)
    requires a.Valid() && b.Valid()
    ensures MulSpec(a, b) == MulSpec(b, a)
  {
    var L, F := IntLen(a, b), FracLen(a, b);
    assert IntLen(b, a) == L && FracLen(b, a) == F;
    var x, y := Val(Aligned(a, L, F)), Val(Aligned(b, L, F));
    MulSpecOn(a, b, x, y);
    MulSpecOn(b, a, y, x);
    assert Times(x, y) == Times(y, x);
  }

  /** Multiplying by a positive value of magnitude one gives a value `==`
      to the other operand. */
  lemma MulByUnit(a: Decimal, u: Decimal)
    requires a.Valid() && u.Valid() && u.isPositive && Magnitude(u) == 1.0
    ensures Eq(MulSpec(a, u), a)
  {
    UnitMagnitude(a, u);
    EqIffSameValue(MulSpec(a, u), a);
  }

  /** Multiplying by a value of magnitude one keeps the magnitude. */
  lemma UnitMagnitude(a: Decimal, u: Decimal)
    requires a.Valid() && u.Valid() && Magnitude(u) == 1.0
    ensures Magnitude(MulSpec(a, u)) == Magnitude(a)
  {
    var x, y, v, p, pp := ProductRatios(a, u);
    UnitRatio(Magnitude(MulSpec(a, u)), Magnitude(a), x, y, v, p, pp);
  }

  /** `1` is a unit of `*` up to `==`: the product only differs from `a`
      by the zeros it pads or trims. */
  lemma MulByOne(a: Decimal)
    requires a.Valid()
    ensures Eq(MulSpec(a, Decimal("1", "", true)), a)
  {
    var one := Decimal("1", "", true);
    assert Val("1") == 1 by {
      assert "1"[..0] == "";
    }
    assert Magnitude(one) == 1.0;
    MulByUnit(a, one);
  }

  /** `*` respects `==`: operands equal up to padding zeros give products
      equal up to padding zeros. */
  lemma MulRespectsEq(a: Decimal, a': Decimal, b: Decimal, b': Decimal)
    requires a.Valid() && a'.Valid() && b.Valid() && b'.Valid()
    requires Eq(a, a') && Eq(b, b')
    ensures Eq(MulSpec(a, b), MulSpec(a', b'))
  {
    EqIffSameValue(a, a');
    EqIffSameValue(b, b');
    var ma, mb := Magnitude(a), Magnitude(b);
    MulMagnitude(a, b, ma, mb);
    MulMagnitude(a', b', ma, mb);
    EqIffSameValue(MulSpec(a, b), MulSpec(a', b'));
  }

  /** `a * b == c` holds for every `c` with the product `ma * mb` of the
      operands' magnitudes as magnitude and the product's sign. */
  lemma ProductEq(a: Decimal, b: Decimal, c: Decimal, ma: real, mb: real)
    requires a.Valid() && b.Valid() && c.Valid() && ma == Magnitude(a) && mb == Magnitude(b)
    requires c.isPositive == (a.isPositive == b.isPositive) && Magnitude(c) == ma * mb
    ensures Eq(MulSpec(a, b), c)
  {
    MulMagnitude(a, b, ma, mb);
    EqIffSameValue(MulSpec(a, b), c);
  }

  lemma WholeMagnitudes()
    ensures Magnitude(Decimal("2", "", true)) == 2.0 && Magnitude(Decimal("3", "", true)) == 3.0
    ensures Magnitude(Decimal("6", "", true)) == 6.0
  {
    assert Val("2") == 2 && Val("3") == 3 && Val("6") == 6 by {
      assert "2"[..0] == "" && "3"[..0] == "" && "6"[..0] == "";
    }
  }

  lemma FractionMagnitudes()
    ensures Magnitude(Decimal("0", "1", true)) == 0.1 && Magnitude(Decimal("0", "2", true)) == 0.2
    ensures Magnitude(Decimal("0", "02", true)) == 0.02
  {
    assert Val("0") == 0 && Val("1") == 1 && Val("2") == 2 by {
      assert "0"[..0] == "" && "1"[..0] == "" && "2"[..0] == "";
    }
    assert Val("02") == 2 by {
      assert "02"[..1] == "0";
    }
    assert Pow10(1) == 10 && Pow10(2) == 100;
  }

  /** `2 * 3 == 6`. */
  lemma TwoTimesThree()
    ensures Eq(MulSpec(Decimal("2", "", true), Decimal("3", "", true)), Decimal("6", "", true))
  {
    var a, b, c := Decimal("2", "", true), Decimal("3", "", true), Decimal("6", "", true);
    WholeMagnitudes();
    ProductEq(a, b, c, 2.0, 3.0);
  }

  /** `0.1 * 0.2 == 0.02`: no digit of the product is lost. */
  lemma TenthTimesTwoTenths()
    ensures Eq(MulSpec(Decimal("0", "1", true), Decimal("0", "2", true)), Decimal("0", "02", true))
  {
    var a, b, c := Decimal("0", "1", true), Decimal("0", "2", true), Decimal("0", "02", true);
    FractionMagnitudes();
    ProductEq(a, b, c, 0.1, 0.2);
  }

  /** A zero product is printed `0.0`, or `-0.0` when the operands' signs
      differ: the zero keeps the sign the multiplication gives it. */
  lemma ZeroProductDisplay(a: Decimal, b: Decimal)
    requires a.Valid() && b.Valid() && (IsZero(a) || IsZero(b))
    ensures Display(MulSpec(a, b)) == if a.isPositive == b.isPositive then "0.0" else "-0.0"
  {
    MulZeroIff(a, b);
    var r := MulSpec(a, b);
    assert AllZeros(r.intPart) && AllZeros(r.fracPart);
    assert r.intPart[0] == '0' && r.fracPart[|r.fracPart| - 1] == '0';
    assert r == Decimal("0", "0", a.isPositive == b.isPositive);
    DisplayZero(a.isPositive == b.isPositive);
  }
}
