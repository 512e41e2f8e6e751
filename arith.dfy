/** Small facts of integer and real arithmetic, stated over plain variables
    so that each is proved apart from the definitions that use it. */
module Arith {
  import opened Comparison

  lemma CancelFactor(x: int, y: int, m: int)
    requires m > 0 && x * m == y * m
    ensures x == y
  {
  }

  /** Cross-multiplying `x / qx` and `y / qy` where `x == a * ps`,
      `qx == pu * ps`, `y == b * pt` and `qy == pv * pt` cancels the common
      factors `ps` and `pt`. */
  lemma CancelCross(x: int, qx: int, y: int, qy: int, a: int, b: int, ps: int, pt: int, pu: int, pv: int)
    requires ps > 0 && pt > 0
    requires x == a * ps && qx == pu * ps && y == b * pt && qy == pv * pt
    ensures x * qy == y * qx <==> a * pv == b * pu
  {
    assert x * qy == (a * pv) * (ps * pt);
    assert y * qx == (b * pu) * (ps * pt);
    if (a * pv) * (ps * pt) == (b * pu) * (ps * pt) {
      CancelFactor(a * pv, b * pu, ps * pt);
    }
  }

  lemma RealOfProduct(a: int, b: int)
    ensures (a * b) as real == a as real * b as real
  {
  }

  lemma FractionBelowOne(f: nat, p: nat)
    requires f < p
    ensures 0.0 <= f as real / p as real < 1.0
  {
  }

  lemma RealDivSplit(i: real, f: real, p: real)
    requires p > 0.0
    ensures (i * p + f) / p == i + f / p
  {
  }

  lemma RealCancel(x: real, m: real, q: real)
    requires m > 0.0 && q > 0.0
    ensures (x * m) / (q * m) == x / q
  {
  }

  lemma RealDivEqIff(f: real, p: real, g: real, q: real)
    requires p > 0.0 && q > 0.0
    ensures f / p == g / q <==> f * q == g * p
  {
  }

  /** `i + x == j + y` with whole `i`, `j` and `x`, `y` in `[0, 1)` splits
      into `i == j` and `x == y`. */
  lemma WholeAndFraction(i: int, x: real, j: int, y: real)
    requires 0.0 <= x < 1.0 && 0.0 <= y < 1.0
    ensures i as real + x == j as real + y <==> i == j && x == y
  {
    if i < j {
      assert i as real + 1.0 <= j as real;
    } else if j < i {
      assert j as real + 1.0 <= i as real;
    }
  }

  lemma SumOfRatioZero(i: nat, f: nat, p: nat)
    requires p > 0
    ensures i as real + f as real / p as real == 0.0 <==> i == 0 && f == 0
  {
    FractionBelowOne(0, p);
    assert f as real / p as real >= 0.0;
  }

  /** `i + f/p == j + g/q` for proper fractions `f/p` and `g/q` splits into
      equal whole parts and cross-multiplied equal fractions. */
  lemma SumOfRatioEq(i: nat, f: nat, p: nat, j: nat, g: nat, q: nat)
    requires f < p && g < q
    ensures i as real + f as real / p as real == j as real + g as real / q as real
        <==> i == j && f * q == g * p
  {
    FractionBelowOne(f, p);
    FractionBelowOne(g, q);
    WholeAndFraction(i, f as real / p as real, j, g as real / q as real);
    RealDivEqIff(f as real, p as real, g as real, q as real);
    RealOfProduct(f, q);
    RealOfProduct(g, p);
  }

  lemma NotMultipleOfTen(q: int, d: int, m: int)
    requires 0 < d < 10
    ensures q * 10 + d != m * 10
  {
  }

  /** `x * (p * (10 * k))` is a multiple of `10 * p`, while `(q * 10 + d) * p`
      with a last digit `d` in `1..9` is not. */
  lemma ScaledNotMultipleOfTen(x: int, p: int, k: int, q: int, d: int)
    requires p > 0 && 0 < d < 10
    ensures x * (p * (10 * k)) != (q * 10 + d) * p
  {
    assert x * (p * (10 * k)) == (x * k * 10) * p;
    if (x * k * 10) * p == (q * 10 + d) * p {
      CancelFactor(x * k * 10, q * 10 + d, p);
      NotMultipleOfTen(q, d, x * k);
    }
  }

  /** `(i * (p * q) + f * q) / (p * q) == i + f / p` */
  lemma ScaleRatio(i: nat, f: nat, p: nat, q: nat)
    requires p > 0 && q > 0
    ensures (i * (p * q) + f * q) as real / (p * q) as real == i as real + f as real / p as real
  {
    var pr, qr := p as real, q as real;
    assert (i * (p * q) + f * q) as real == (i as real * pr + f as real) * qr;
    assert (p * q) as real == pr * qr;
    RealCancel(i as real * pr + f as real, qr, pr);
    RealDivSplit(i as real, f as real, pr);
  }

  lemma RatioMonotone(x: nat, y: nat, p: nat)
    requires p > 0 && x < y
    ensures x as real / p as real < y as real / p as real
  {
  }

  /** The ordering of `x / p` and `y / p` is the ordering of `x` and `y`,
      and negating both reverses it. */
  lemma RatioOrder(x: nat, y: nat, p: nat)
    requires p > 0
    ensures CompareReal(x as real / p as real, y as real / p as real) == CompareNat(x, y)
    ensures CompareReal(-(x as real / p as real), -(y as real / p as real)) == CompareNat(x, y).Reverse()
  {
    if x < y {
      RatioMonotone(x, y, p);
    } else if y < x {
      RatioMonotone(y, x, p);
    }
  }

  /** One more column on the right of a schoolbook addition: the columns
      on the left sum to `vr + wIn == vx + vy + next`, the new column to
      `digit + 10 * next == xd + yd + cin`, and one place further left the
      carry weighs `wOut == 10 * wIn`. */
  lemma SumColumnStep(vr: int, wIn: int, wOut: int, vx: int, vy: int, next: int,
                      digit: int, xd: int, yd: int, cin: int, vr': int, vx': int, vy': int)
    requires wOut == 10 * wIn
    requires vr + wIn == vx + vy + next
    requires digit + 10 * next == xd + yd + cin
    requires vr' == vr * 10 + digit && vx' == vx * 10 + xd && vy' == vy * 10 + yd
    ensures vr' + wOut == vx' + vy' + cin
  {
  }

  /** The same for a schoolbook subtraction and its borrow. */
  lemma DiffColumnStep(vr: int, wIn: int, wOut: int, vx: int, vy: int, next: int,
                       digit: int, xd: int, yd: int, bin: int, vr': int, vx': int, vy': int)
    requires wOut == 10 * wIn
    requires vr + vy + next == vx + wIn
    requires digit + yd + bin == xd + 10 * next
    requires vr' == vr * 10 + digit && vx' == vx * 10 + xd && vy' == vy * 10 + yd
    ensures vr' + vy' + bin == vx' + wOut
  {
  }

  lemma RatioAdd(x: nat, y: nat, p: nat)
    requires p > 0
    ensures x as real / p as real + y as real / p as real == (x + y) as real / p as real
  {
  }

  lemma RatioSub(x: nat, y: nat, p: nat)
    requires p > 0 && y <= x
    ensures x as real / p as real - y as real / p as real == (x - y) as real / p as real
  {
  }

  /** Dropping a carry worth `q * p` subtracts `q` from the ratio. */
  lemma RatioDropCarry(v: nat, q: nat, p: nat)
    requires p > 0 && q * p <= v
    ensures (v - q * p) as real / p as real == v as real / p as real - q as real
  {
    RealOfProduct(q, p);
    assert (q * p) as real / p as real == q as real;
  }

  /** `i < pi` and `f < p` give `i * p + f < pi * p`: a number's leading
      digits followed by `p`'s worth of trailing digits stay below `pi * p`. */
  lemma LeadingAndTrailingBound(i: int, pi: int, f: int, p: int)
    requires 0 <= i < pi && 0 <= f < p
    ensures 0 <= i * p + f < pi * p
  {
    assert i * p + p == (i + 1) * p;
    assert (i + 1) * p <= pi * p;
  }

  /** Two schoolbook additions run one after the other, the lower part's
      carry `c1` (worth `w1` above the lower part) feeding the upper part,
      make one addition of the two parts put together (`vr`, `va` and `vb`,
      the upper part weighing `pf` each): the upper part's carry, worth `w2`
      above the upper part, is worth `w` above both, and the result stays
      below `m`. */
  lemma TwoPartSum(ri: int, rf: int, ai: int, af: int, bi: int, bf: int, vr: int, va: int, vb: int,
                   c1: int, w1: int, w2: int, w: int, pf: int, pl: int, m: int)
    requires 0 <= ri < pl && 0 <= rf < pf && m == pl * pf
    requires vr == ri * pf + rf && va == ai * pf + af && vb == bi * pf + bf
    requires (c1 == 0 && w1 == 0) || (c1 == 1 && w1 == pf)
    requires (w2 == 0 && w == 0) || (w2 == pl && w == m)
    requires rf + w1 == af + bf && ri + w2 == ai + bi + c1
    ensures vr + w == va + vb && 0 <= vr < m
  {
    assert (ri + w2) * pf == (ai + bi + c1) * pf;
    assert w2 * pf == w;
    LeadingAndTrailingBound(ri, pl, rf, pf);
  }

  /** The same for two schoolbook subtractions and their borrows. */
  lemma TwoPartDiff(ri: int, rf: int, xi: int, xf: int, yi: int, yf: int, vr: int, vx: int, vy: int,
                    b1: int, w1: int, w2: int, w: int, pf: int, pl: int, m: int)
    requires 0 <= ri < pl && 0 <= rf < pf && m == pl * pf
    requires vr == ri * pf + rf && vx == xi * pf + xf && vy == yi * pf + yf
    requires (b1 == 0 && w1 == 0) || (b1 == 1 && w1 == pf)
    requires (w2 == 0 && w == 0) || (w2 == pl && w == m)
    requires rf + yf == xf + w1 && ri + yi + b1 == xi + w2
    ensures vr + vy == vx + w && 0 <= vr < m
  {
    assert (ri + yi + b1) * pf == (xi + w2) * pf;
    assert w2 * pf == w;
    LeadingAndTrailingBound(ri, pl, rf, pf);
  }

  /** Adding a multiple of ten leaves the last decimal digit alone. */
  lemma DivModTenShift(v: nat, p: nat)
    ensures (v + 10 * p) / 10 == v / 10 + p && (v + 10 * p) % 10 == v % 10
  {
  }

  /** `v / p < q` exactly when `v < q * p`. */
  lemma RatioBelow(v: nat, p: nat, q: nat)
    requires p > 0
    ensures v as real / p as real < q as real <==> v < q * p
  {
    RealOfProduct(q, p);
    RealDivSplit(q as real, 0.0, p as real);
    if v < q * p {
      RatioMonotone(v, q * p, p);
    } else if v > q * p {
      RatioMonotone(q * p, v, p);
    }
  }

  /** `v + q * p == x + y` puts `v / p` exactly `q` below `x / p + y / p`. */
  lemma RatioMinusCarry(x: nat, y: nat, v: nat, q: nat, p: nat)
    requires p > 0 && v + q * p == x + y
    ensures v as real / p as real == x as real / p as real + y as real / p as real - q as real
  {
    RatioDropCarry(x + y, q, p);
    RatioAdd(x, y, p);
  }

  /** Substituting `i` and `f * q` for the parts of `vi * p + vf`. */
  lemma SubstituteParts(s: int, vi: int, vf: int, p: int, i: int, f: int, q: int)
    requires s == vi * p + vf && vi == i && vf == f * q
    ensures s == i * p + f * q
  {
  }

  /** Equal factors give equal products: `s == a * p + b` in other names. */
  lemma RenameFactors(s: int, a: int, p: int, b: int, a': int, p': int)
    requires s == a * p + b && a == a' && p == p'
    ensures s == a' * p' + b
  {
  }

  /** Below `10 * p`, dropping the last decimal digit leaves a number below
      `p`, and the two parts make up the whole. */
  lemma DivModTen(v: nat, p: nat)
    requires v < 10 * p
    ensures v / 10 < p && v == (v / 10) * 10 + v % 10
  {
  }

  /** A column of a row of a long multiplication: a digit times a digit
      plus a carry of at most `8` splits into a digit and a carry of at
      most `8`. */
  lemma MulColumn(s: int, f: int, c: int)
    requires 0 <= s < 10 && 0 <= f < 10 && 0 <= c <= 8
    ensures 0 <= (s * f + c) / 10 <= 8 && 0 <= (s * f + c) % 10 <= 9
    ensures (s * f + c) % 10 + 10 * ((s * f + c) / 10) == s * f + c
  {
    assert s * f <= 81 by {
      assert s * f <= 9 * f;
    }
  }

  /** One column of a row of a long multiplication: the digit `ip` lands in
      a cell of weight `p`, the carry moves to weight `10 * p`, and the
      multiplicand's digits read so far grow from `v0` to `v1` by the digit
      `f` of weight `e`; the row's running total stays that of `s` times
      the digits read, at the row's weight `q`. */
  lemma RowStep(cv0: int, cv1: int, carry0: int, carry1: int, ip: int, s: int, f: int,
                p: int, p10: int, v0: int, v1: int, q: int, e: int, base: int)
    requires cv1 == cv0 + ip * p
    requires ip + 10 * carry1 == s * f + carry0
    requires cv0 + carry0 * p == base + s * v0 * q
    requires v1 == f * e + v0 && p == e * q && p10 == 10 * p
    ensures cv1 + carry1 * p10 == base + s * v1 * q
  {
    assert cv1 + carry1 * p10 == cv0 + (ip + 10 * carry1) * p;
    assert (s * f + carry0) * p == s * f * p + carry0 * p;
    assert s * f * p == s * (f * e) * q;
    assert s * v1 * q == s * (f * e) * q + s * v0 * q;
  }

  /** One row of a long multiplication adds `d * x * q` to a total of
      `x * v0`, where the multiplier's digits grow from `v0` to `v1` by the
      digit `d` of weight `q`. */
  lemma RowsStep(cv0: int, cv1: int, x: int, v0: int, v1: int, d: int, q: int)
    requires cv0 == x * v0 && cv1 == cv0 + d * x * q && v1 == d * q + v0
    ensures cv1 == x * v1
  {
    assert x * v1 == x * (d * q) + x * v0;
  }

  lemma ProductBound(x: nat, y: nat, p: nat)
    requires x < p && y < p
    ensures x * y < p * p
  {
    assert x * y <= x * p;
  }

  lemma RatioProduct(x: nat, y: nat, p: nat)
    requires p > 0
    ensures (x as real / p as real) * (y as real / p as real) == (x * y) as real / (p * p) as real
  {
    RealOfProduct(x, y);
    RealOfProduct(p, p);
  }

  /** Cross-multiplied fractions `f / p == g / q` stay equal when `f` and
      `p` are both multiplied by `k`. */
  lemma CrossScale(f: nat, p: nat, g: nat, k: nat, fk: nat, pk: nat)
    requires fk == f * k && pk == p * k
    ensures fk * p == f * pk
  {
  }

  /** Equal cross products give equal ratios. */
  lemma CrossRatio(f: nat, p: nat, g: nat, q: nat)
    requires p > 0 && q > 0 && f * q == g * p
    ensures f as real / p as real == g as real / q as real
  {
    RealOfProduct(f, q);
    RealOfProduct(g, p);
    RealDivEqIff(f as real, p as real, g as real, q as real);
  }

  /** The rule of signs: `sr`, `sa` and `sb` are the magnitudes `m`, `ma`
      and `mb` with the signs `pa == pb`, `pa` and `pb`. */
  lemma SignedProduct(sr: real, sa: real, sb: real, m: real, ma: real, mb: real, pa: bool, pb: bool)
    requires m == ma * mb
    requires sr == (if pa == pb then m else -m)
    requires sa == (if pa then ma else -ma) && sb == (if pb then mb else -mb)
    ensures sr == sa * sb
  {
  }

  /** A product of reals is zero exactly when a factor is. */
  lemma ZeroProduct(m: real, ma: real, mb: real)
    requires m == ma * mb
    ensures m == 0.0 <==> ma == 0.0 || mb == 0.0
  {
  }

  /** `ProductBound` with the product and the square already named. */
  lemma ProductBelow(x: nat, y: nat, p: nat, pp: nat, v: nat)
    requires x < p && y < p && pp == p * p && v == x * y
    ensures v < pp
  {
    ProductBound(x, y, p);
  }

  /** A value equal to `v / pp`, where `v == x * y` and `pp == p * p`, is
      the product of `x / p` and `y / p`. */
  lemma ProductChain(m: real, ma: real, mb: real, x: nat, y: nat, v: nat, p: nat, pp: nat)
    requires p > 0 && ma == x as real / p as real && mb == y as real / p as real
    requires pp == p * p && v == x * y && m == v as real / pp as real
    ensures m == ma * mb
  {
    RatioProduct(x, y, p);
  }

  /** When `y / p` is one, a value equal to `v / pp`, where `v == x * y` and
      `pp == p * p`, is `x / p`. */
  lemma UnitRatio(m: real, ma: real, x: nat, y: nat, v: nat, p: nat, pp: nat)
    requires p > 0 && ma == x as real / p as real && y as real / p as real == 1.0
    requires pp == p * p && v == x * y && m == v as real / pp as real
    ensures m == ma
  {
    ProductChain(m, ma, 1.0, x, y, v, p, pp);
  }
}
