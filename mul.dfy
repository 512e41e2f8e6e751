/** `Mul for Decimal`.  Both operands are padded to the common integer length
    `L` and fraction length `F` and their digits read together, giving two
    numbers of `L + F` digits.  A schoolbook long multiplication accumulates
    the product into `2 * (L + F)` cells, one row per digit of the right
    operand; the cells are rendered as digits, split `2 * F` places from the
    right, and the integer digits lose their leading zeros and the fraction
    digits their trailing ones (an all-zero part becomes `"0"`).  The result
    is non-negative exactly when the signs agree, so a zero product
    can be negative. */
module Multiply {
  import opened Digits
  import opened Decimals
  import opened Buffer
  import opened Arith
  import opened AddSub

  /** The digits of a product with their zeros trimmed as `trim_zeros` does. */
  function Trimmed(p: Decimal): (r: Decimal)
    requires p.Valid()
    ensures r.Valid() && r.isPositive == p.isPositive
  {
    ValTrimLeading(p.intPart);
    ValTrimTrailing(p.fracPart);
    Decimal(TrimZeros(p.intPart, true), TrimZeros(p.fracPart, false), p.isPositive)
  }

  function Times(x: nat, y: nat): nat {
    x * y
  }

  /** The product as `mul` forms it: the exact product of the padded
      numbers in `2 * L` integer and `2 * F` fraction digits, trimmed. */
  function MulSpec(a: Decimal, b: Decimal): (r: Decimal)
    requires a.Valid() && b.Valid()
    ensures r.Valid() && (r.isPositive <==> a.isPositive == b.isPositive)
    ensures r.intPart != [] && (r.intPart[0] == '0' ==> r.intPart == "0")
    ensures r.fracPart != [] && (r.fracPart[|r.fracPart| - 1] == '0' ==> r.fracPart == "0")
  {
    var L, F := IntLen(a, b), FracLen(a, b);
    var product := Build(Times(Val(Aligned(a, L, F)), Val(Aligned(b, L, F))), 2 * L, 2 * F, a.isPositive == b.isPositive);
    Trimmed(product)
  }

  /** `MulSpec` on the padded numbers `x` and `y`. */
  lemma MulSpecOn(a: Decimal, b: Decimal, x: nat, y: nat)
    requires a.Valid() && b.Valid()
    requires x == Val(Aligned(a, IntLen(a, b), FracLen(a, b))) && y == Val(Aligned(b, IntLen(a, b), FracLen(a, b)))
    ensures MulSpec(a, b) == Trimmed(Build(Times(x, y), 2 * IntLen(a, b), 2 * FracLen(a, b), a.isPositive == b.isPositive))
  {
  }

  /** Accumulator cells that each hold a single digit. */
  predicate DigitCells(c: seq<int>) {
    forall i :: 0 <= i < |c| ==> 0 <= c[i] <= 9
  }

  /** The number the cells denote, the leftmost cell the most significant. */
  function CellsVal(c: seq<int>): int {
    if c == [] then 0 else CellsVal(c[..|c| - 1]) * 10 + c[|c| - 1]
  }

  /** `res_vec.iter().map(|&x| char::from_u32(x as u32 + 48))`, on cells
      that hold digits. */
  function Render(c: seq<int>): (s: string)
    requires DigitCells(c)
    ensures |s| == |c| && AllDigits(s)
  {
    if c == [] then [] else Render(c[..|c| - 1]) + [DigitChar(c[|c| - 1])]
  }

  /** Adding `d` to one cell adds `d` times that cell's weight. */
  lemma {:induction false} CellsValAdd(c: seq<int>, i: nat, d: int, w: nat)
    requires i < |c| && w == Pow10(|c| - 1 - i)
    ensures CellsVal(c[i := c[i] + d]) == CellsVal(c) + d * w
  {
    var c' := c[i := c[i] + d];
    var init, init' := c[..|c| - 1], c'[..|c| - 1];
    if i == |c| - 1 {
      assert init' == init;
    } else {
      assert init' == init[i := init[i] + d];
      CellsValAdd(init, i, d, Pow10(|init| - 1 - i));
      assert w == 10 * Pow10(|init| - 1 - i);
    }
  }

  lemma {:induction false} CellsValZeros(c: seq<int>)
    requires forall i :: 0 <= i < |c| ==> c[i] == 0
    ensures CellsVal(c) == 0
  {
    if c != [] {
      CellsValZeros(c[..|c| - 1]);
    }
  }

  /** Digit cells render as the digits of the number they denote. */
  lemma {:induction false} RenderDigits(c: seq<int>)
    requires DigitCells(c)
    ensures CellsVal(c) >= 0 && Render(c) == ToDigits(CellsVal(c), |c|)
  {
    if c != [] {
      var init := c[..|c| - 1];
      RenderDigits(init);
      DivModTenShift(c[|c| - 1], CellsVal(init));
    }
  }

  /** The digits `x[k..]` and the digit in front of them, of weight `e`. */
  lemma ValFromDigit(x: string, k: nat, next: nat, e: nat)
    requires AllDigits(x) && k < |x| && next == k + 1 && e == Pow10(|x| - 1 - k)
    ensures Val(x[k..]) == DigitValue(x[k]) * e + Val(x[next..])
  {
    var c, t := x[k], x[next..];
    assert x[k..] == [c] + t;
    ValCons(c, t, e);
  }

  /** Cells that hold digits except cell `t`, which may hold `10`. */
  predicate RowCells(c: seq<int>, t: int) {
    && 0 <= t < |c| && 0 <= c[t] <= 10
    && forall i :: 0 <= i < |c| && i != t ==> 0 <= c[i] <= 9
  }

  /** The cells after one column of a row: `ip` added to cell `t`, and an
      overflow of that cell moved as a one into cell `t - 1`. */
  function AddAt(c: seq<int>, t: nat, ip: int): (r: seq<int>)
    requires 0 < t < |c|
    ensures |r| == |c|
  {
    var c1 := c[t := c[t] + ip];
    if c1[t] >= 10 then c1[t - 1 := c1[t - 1] + 1][t := c1[t] - 10] else c1
  }

  /** A column adds `ip` at the weight `w` of cell `t`, leaves every cell
      a digit except cell `u == t - 1`, and changes no cell left of `u`. */
  lemma AddAtKeeps(c: seq<int>, t: nat, u: nat, ip: int, w: nat)
    requires u + 1 == t && t < |c| && RowCells(c, t) && 0 <= ip <= 9 && w == Pow10(|c| - 1 - t)
    ensures RowCells(AddAt(c, t, ip), u)
    ensures forall i :: 0 <= i < u ==> AddAt(c, t, ip)[i] == c[i]
    ensures AddAt(c, t, ip)[u] <= c[u] + 1
    ensures CellsVal(AddAt(c, t, ip)) == CellsVal(c) + ip * w
  {
    AddAtCells(c, t, u, ip, AddAt(c, t, ip));
    AddAtValue(c, t, u, ip, w, AddAt(c, t, ip));
  }

  /** The cells of a column `r`: digits except cell `u`, which gained at
      most the one carried into it, and nothing left of `u` touched. */
  lemma AddAtCells(c: seq<int>, t: nat, u: nat, ip: int, r: seq<int>)
    requires u + 1 == t && t < |c| && RowCells(c, t) && 0 <= ip <= 9 && r == AddAt(c, t, ip)
    ensures RowCells(r, u)
    ensures forall i :: 0 <= i < u ==> r[i] == c[i]
    ensures r[u] <= c[u] + 1
  {
  }

  /** What a column `r` adds to the cells' number: `ip` at weight `w`. */
  lemma AddAtValue(c: seq<int>, t: nat, u: nat, ip: int, w: nat, r: seq<int>)
    requires u + 1 == t && t < |c| && w == Pow10(|c| - 1 - t) && r == AddAt(c, t, ip)
    ensures CellsVal(r) == CellsVal(c) + ip * w
  {
    var c1 := c[t := c[t] + ip];
    CellsValAdd(c, t, ip, w);
    if c1[t] >= 10 {
      CarryValue(c1, t, u, w);
    }
  }

  /** Moving ten out of cell `t` as a one into cell `u == t - 1` keeps the
      cells' number. */
  lemma CarryValue(c: seq<int>, t: nat, u: nat, w: nat)
    requires u + 1 == t && t < |c| && w == Pow10(|c| - 1 - t)
    ensures CellsVal(c[u := c[u] + 1][t := c[t] - 10]) == CellsVal(c)
  {
    var c2 := c[u := c[u] + 1];
    assert |c| - 1 - u == (|c| - 1 - t) + 1;
    CellsValAdd(c, u, 1, 10 * w);
    CellsValAdd(c2, t, -10, w);
    assert c2[t := c2[t] + -10] == c[u := c[u] + 1][t := c[t] - 10];
  }

  /** The state of a row at the head of its inner loop, `k` digits of `x`
      still to go: the cells are digits except the next target cell
      `k + ps`, the cells left of it are as they were (`orig`), the last of
      them `ps` holds at most a one once the row is through, and the cells
      plus the pending `carry` at weight `w` are the row's start `base`
      plus `s` times the digits `x[k..]` at the row's weight `q`. */
  predicate RowState(c: seq<int>, orig: seq<int>, x: string, s: nat, ps: nat, k: nat, carry: int, w: nat, base: int, q: nat)
    requires AllDigits(x)
  {
    && k <= |x| && ps < |x| && |c| == |orig| == 2 * |x| && orig[ps] == 0 && 0 <= carry <= 8
    && RowCells(c, k + ps)
    && (forall i :: 0 <= i < k + ps ==> c[i] == orig[i])
    && (k == 0 ==> c[ps] <= 1)
    && w == Pow10(2 * |x| - 1 - (k + ps))
    && CellsVal(c) + carry * w == base + s * Val(x[k..]) * q
  }

  lemma StartRow(c: seq<int>, x: string, s: nat, ps: nat, base: int, q: nat)
    requires AllDigits(x) && ps < |x| && |c| == 2 * |x| && DigitCells(c) && c[ps] == 0
    requires base == CellsVal(c) && q == Pow10(|x| - 1 - ps)
    ensures RowState(c, c, x, s, ps, |x|, 0, q, base, q)
  {
    assert 2 * |x| - 1 - (|x| + ps) == |x| - 1 - ps;
    assert x[|x|..] == [];
  }

  /** One column of the inner loop keeps the row's state: the digit `s`
      times `x[k']` plus the `carry` leaves the digit `ip` in cell
      `k' + ps + 1` and the carry `carry'` for the next column. */
  lemma ColumnKeeps(c: seq<int>, c': seq<int>, orig: seq<int>, x: string, s: nat, ps: nat,
                    k: nat, k': nat, carry: int, carry': int, prod: int, ip: int, w: nat, w': nat, base: int, q: nat)
    requires AllDigits(x) && s < 10 && k' + 1 == k
    requires RowState(c, orig, x, s, ps, k, carry, w, base, q) && q == Pow10(|x| - 1 - ps)
    requires prod == s * DigitValue(x[k']) + carry && ip == prod % 10 && carry' == prod / 10
    requires c' == AddAt(c, k' + ps + 1, ip) && w' == 10 * w
    ensures RowState(c', orig, x, s, ps, k', carry', w', base, q)
  {
    MulColumn(s, DigitValue(x[k']), carry);
    assert |c| - 1 - (k' + ps + 1) == 2 * |x| - 1 - (k + ps);
    AddAtKeeps(c, k' + ps + 1, k' + ps, ip, w);
    ColumnValue(CellsVal(c), CellsVal(c'), x, s, ps, k, k', carry, carry', ip, w, w', base, q);
  }

  /** The number side of a column: the cells' number grows by `ip` at the
      column's weight `w`, the carry moves to `w' == 10 * w`, and the digit
      `x[k']` joins the digits done. */
  lemma ColumnValue(cv: int, cv': int, x: string, s: nat, ps: nat, k: nat, k': nat,
                    carry: int, carry': int, ip: int, w: nat, w': nat, base: int, q: nat)
    requires AllDigits(x) && k' + 1 == k && k <= |x| && ps < |x|
    requires w == Pow10(2 * |x| - 1 - (k + ps)) && w' == 10 * w && q == Pow10(|x| - 1 - ps)
    requires ip + 10 * carry' == s * DigitValue(x[k']) + carry
    requires cv + carry * w == base + s * Val(x[k..]) * q && cv' == cv + ip * w
    ensures w' == Pow10(2 * |x| - 1 - (k' + ps)) && cv' + carry' * w' == base + s * Val(x[k'..]) * q
  {
    var n, m := |x|, 2 * |x| - 1 - (k + ps);
    Pow10Shift(m, 2 * n - 1 - (k' + ps));
    var e := Pow10(n - 1 - k');
    ValFromDigit(x, k', k, e);
    Pow10Sum(n - 1 - k', n - 1 - ps, m);
    RowStep(cv, cv', carry, carry', ip, s, DigitValue(x[k']), w, w', Val(x[k..]), Val(x[k'..]), q, e, base);
  }

  /** `res_vec[pad_s] += carry` ends a row with all cells digits, the cells
      left of the row unchanged, and `s` times `x` added at weight `q`. */
  lemma FinishRow(c: seq<int>, c': seq<int>, orig: seq<int>, x: string, s: nat, ps: nat, carry: int, w: nat, base: int, q: nat)
    requires AllDigits(x) && RowState(c, orig, x, s, ps, 0, carry, w, base, q)
    requires c' == c[ps := c[ps] + carry]
    ensures DigitCells(c') && (forall i :: 0 <= i < ps ==> c'[i] == orig[i])
    ensures CellsVal(c') == base + s * Val(x) * q
  {
    assert 2 * |x| - 1 - (0 + ps) == |c| - 1 - ps;
    CellsValAdd(c, ps, carry, w);
    assert x[0..] == x;
  }

  /** One column of the inner loop of `mul`: add the digit product to cell
      `t`, and when that cell reaches 10 move one into cell `t - 1`. */
  method AddColumn(cells: array<int>, t: nat, ip: int)
    requires 0 < t < cells.Length
    modifies cells
    ensures cells[..] == AddAt(old(cells[..]), t, ip)
  {
    cells[t] := cells[t] + ip;
    if cells[t] >= 10 {
      cells[t - 1] := cells[t - 1] + 1;
      cells[t] := cells[t] - 10;
    }
  }

  /** One row of `mul`: the inner loop over the digits of `x` from the right
      with its `carry`, then `res_vec[pad_s] += carry`.  The row adds the
      digit `s` times `x` at the weight of the row's rightmost cell
      `ps + |x|`, and the cells stay digits. */
  method AccumulateRow(cells: array<int>, x: string, s: nat, ps: nat)
    requires AllDigits(x) && s < 10 && ps < |x| && cells.Length == 2 * |x|
    requires DigitCells(cells[..]) && cells[ps] == 0
    modifies cells
    ensures DigitCells(cells[..])
    ensures forall c :: 0 <= c < ps ==> cells[c] == old(cells[c])
    ensures CellsVal(cells[..]) == CellsVal(old(cells[..])) + s * Val(x) * Pow10(|x| - 1 - ps)
  {
    ghost var base, q := CellsVal(cells[..]), Pow10(|x| - 1 - ps);
    ghost var w := q;
    var carry := 0;
    var k := |x|;
    StartRow(cells[..], x, s, ps, base, q);
    while k > 0
      invariant 0 <= k && RowState(cells[..], old(cells[..]), x, s, ps, k, carry, w, base, q)
    {
      ghost var before, carryBefore, next := cells[..], carry, k;
      k := k - 1;
      var f := DigitValue(x[k]);
      var interProduct := s * f + carry;
      ghost var prod := interProduct;
      carry := interProduct / 10;
      interProduct := interProduct % 10;
      AddColumn(cells, k + ps + 1, interProduct);
      w := 10 * w;
      ColumnKeeps(before, cells[..], old(cells[..]), x, s, ps, next, k, carryBefore, carry, prod, interProduct, w / 10, w, base, q);
    }
    ghost var before := cells[..];
    cells[ps] := cells[ps] + carry;
    assert cells[..] == before[ps := before[ps] + carry];
    FinishRow(before, cells[..], old(cells[..]), x, s, ps, carry, w, base, q);
  }

  /** The long multiplication of `mul`: `res_vec` of `2 * |y|` cells, one
      row per digit of `y` from the right, rendered as digits.  The digits
      are those of the product `x * y`. */
  method LongMultiply(x: string, y: string) returns (digits: string)
    requires AllDigits(x) && AllDigits(y) && |x| == |y|
    ensures digits == ToDigits(Times(Val(x), Val(y)), 2 * |y|)
  {
    var n := |y|;
    var cells := new int[2 * n](_ => 0);
    CellsValZeros(cells[..]);
    var i := n;
    assert y[i..] == [];
    while i > 0
      invariant 0 <= i <= n
      invariant DigitCells(cells[..])
      invariant forall c :: 0 <= c < i ==> cells[c] == 0
      invariant CellsVal(cells[..]) == Val(x) * Val(y[i..])
    {
      ghost var v0, cv0, next := Val(y[i..]), CellsVal(cells[..]), i;
      i := i - 1;
      AccumulateRow(cells, x, DigitValue(y[i]), i);
      ghost var e := Pow10(n - 1 - i);
      ValFromDigit(y, i, next, e);
      RowsStep(cv0, CellsVal(cells[..]), Val(x), v0, Val(y[i..]), DigitValue(y[i]), e);
    }
    assert y[i..] == y;
    digits := Render(cells[..]);
    RenderDigits(cells[..]);
  }

  /** `Mul::mul`. */
  method Mul(a: Decimal, b: Decimal) returns (r: Decimal)
    requires a.Valid() && b.Valid()
    ensures r == MulSpec(a, b)
  {
    var intLen := Max(|a.intPart|, |b.intPart|);
    var selfInt := Pad(a.intPart, intLen, true);
    var rhsInt := Pad(b.intPart, intLen, true);
    var fracLen := Max(|a.fracPart|, |b.fracPart|);
    var selfFrac := Pad(a.fracPart, fracLen, false);
    var rhsFrac := Pad(b.fracPart, fracLen, false);
    var divIndex := 2 * |selfFrac|;
    PaddedProduct(a, b, selfInt, selfFrac, rhsInt, rhsFrac);
    var resStr := LongMultiply(selfInt + selfFrac, rhsInt + rhsFrac);
    ghost var digits := resStr;
    if divIndex >= |resStr| {
      resStr := Pad(resStr, divIndex + 1, true);
    }
    MulResult(a, b, selfInt, selfFrac, rhsInt, rhsFrac, digits, resStr, divIndex);
    var resInt, resFrac := resStr[..|resStr| - divIndex], resStr[|resStr| - divIndex..];
    r := Decimal(TrimZeros(resInt, true), TrimZeros(resFrac, false), a.isPositive == b.isPositive);
  }

  /** What `mul` does after the long multiplication is `MulSpec`. */
  lemma MulResult(a: Decimal, b: Decimal, ai: string, af: string, bi: string, bf: string,
                  digits: string, resStr: string, divIndex: nat)
    requires a.Valid() && b.Valid()
    requires ai == PadLeft(a.intPart, IntLen(a, b)) && bi == PadLeft(b.intPart, IntLen(a, b))
    requires af == PadRight(a.fracPart, FracLen(a, b)) && bf == PadRight(b.fracPart, FracLen(a, b))
    requires AllDigits(ai + af) && AllDigits(bi + bf) && divIndex == 2 * |af|
    requires digits == ToDigits(Times(Val(ai + af), Val(bi + bf)), 2 * |bi + bf|)
    requires resStr == if divIndex >= |digits| then PadLeft(digits, divIndex + 1) else digits
    ensures |resStr| >= divIndex
    ensures Decimal(TrimZeros(resStr[..|resStr| - divIndex], true), TrimZeros(resStr[|resStr| - divIndex..], false),
                    a.isPositive == b.isPositive) == MulSpec(a, b)
  {
    var L := IntLen(a, b);
    MulSpecDigits(a, b, ai, af, bi, bf, digits);
    ProductSplit(digits, resStr, 2 * L, divIndex);
  }

  /** `MulSpec` read off the rendered product: its first `2 * L` digits,
      trimmed, and the rest, trimmed. */
  lemma MulSpecDigits(a: Decimal, b: Decimal, ai: string, af: string, bi: string, bf: string, digits: string)
    requires a.Valid() && b.Valid()
    requires ai == PadLeft(a.intPart, IntLen(a, b)) && bi == PadLeft(b.intPart, IntLen(a, b))
    requires af == PadRight(a.fracPart, FracLen(a, b)) && bf == PadRight(b.fracPart, FracLen(a, b))
    requires AllDigits(ai + af) && AllDigits(bi + bf)
    requires digits == ToDigits(Times(Val(ai + af), Val(bi + bf)), 2 * |bi + bf|)
    ensures |af| == FracLen(a, b) && |digits| == 2 * IntLen(a, b) + 2 * FracLen(a, b)
    ensures MulSpec(a, b) == Decimal(TrimZeros(digits[..2 * IntLen(a, b)], true), TrimZeros(digits[2 * IntLen(a, b)..], false),
                                     a.isPositive == b.isPositive)
  {
    var L, F := IntLen(a, b), FracLen(a, b);
    var v := Times(Val(ai + af), Val(bi + bf));
    PaddedProduct(a, b, ai, af, bi, bf);
    var product := Build(v, 2 * L, 2 * F, a.isPositive == b.isPositive);
    BuildParts(v, 2 * L, 2 * F, a.isPositive == b.isPositive, digits, 2 * |bi + bf|);
    TrimmedOf(product);
    MulSpecOn(a, b, Val(ai + af), Val(bi + bf));
  }

  /** The rendered product `digits`, padded to `2 * F + 1` digits when it
      has no more than `2 * F` (no integer digits), split `2 * F` places
      from the right, gives back its integer digits `pi`, up to the zeros
      the integer part trims away, and its fraction digits `pf`. */
  lemma ProductSplit(digits: string, resStr: string, k: nat, divIndex: nat)
    requires k <= |digits| && |digits| - k == divIndex
    requires resStr == if divIndex >= |digits| then PadLeft(digits, divIndex + 1) else digits
    ensures |resStr| >= divIndex
    ensures TrimZeros(resStr[..|resStr| - divIndex], true) == TrimZeros(digits[..k], true)
    ensures resStr[|resStr| - divIndex..] == digits[k..]
  {
    if divIndex >= |digits| {
      SplitPadded(digits, resStr, divIndex);
      assert digits[..k] == [] && digits[k..] == digits;
    } else {
      assert resStr[..|resStr| - divIndex] == digits[..k];
    }
  }

  /** The case of `ProductSplit` with no integer digits: one `'0'` in front,
      which trims to `"0"` as the empty string does. */
  lemma SplitPadded(digits: string, resStr: string, n: nat)
    requires |digits| == n && resStr == PadLeft(digits, n + 1)
    ensures |resStr| == n + 1 && resStr[1..] == digits
    ensures TrimZeros(resStr[..1], true) == TrimZeros([], true)
  {
    PadOneZero(digits, n);
    assert AllZeros(resStr[..1]);
  }

  lemma TrimmedOf(p: Decimal)
    requires p.Valid()
    ensures Trimmed(p) == Decimal(TrimZeros(p.intPart, true), TrimZeros(p.fracPart, false), p.isPositive)
  {
  }

  /** Padding `n` digits on the left to `n + 1` adds a single `'0'`. */
  lemma PadOneZero(s: string, n: nat)
    requires |s| == n
    ensures PadLeft(s, n + 1) == "0" + s
    ensures (("0" + s)[..1] == "0") && ("0" + s)[1..] == s
  {
    assert Zeros(1) == "0";
  }

  /** The padded operands of `mul`, read together, are the aligned digits
      of `a` and `b`, of `L + F` digits each, `L` and `F` the padded
      lengths. */
  lemma PaddedProduct(a: Decimal, b: Decimal, ai: string, af: string, bi: string, bf: string)
    requires a.Valid() && b.Valid()
    requires ai == PadLeft(a.intPart, IntLen(a, b)) && bi == PadLeft(b.intPart, IntLen(a, b))
    requires af == PadRight(a.fracPart, FracLen(a, b)) && bf == PadRight(b.fracPart, FracLen(a, b))
    ensures ai + af == Aligned(a, IntLen(a, b), FracLen(a, b)) && bi + bf == Aligned(b, IntLen(a, b), FracLen(a, b))
    ensures AllDigits(ai + af) && AllDigits(bi + bf)
    ensures |ai| == |bi| == IntLen(a, b) && |af| == |bf| == FracLen(a, b)
    ensures |ai + af| == |bi + bf| == IntLen(a, b) + FracLen(a, b)
  {
    PadDigits(a.intPart, IntLen(a, b));
    PadDigits(b.intPart, IntLen(a, b));
    PadDigits(a.fracPart, FracLen(a, b));
    PadDigits(b.fracPart, FracLen(a, b));
  }
}
