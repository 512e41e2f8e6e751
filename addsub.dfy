/** `Add for Decimal` and `Sub for Decimal`.  Both pad the operands to a
    common integer length `L` (zeros on the left) and fraction length `F`
    (zeros on the right) and then work digit column by digit column from
    the right, the fraction columns first and the carry or borrow passed on
    to the integer columns.  A sum of operands of the same sign keeps `L`
    integer digits: a carry out of the leftmost column is dropped.  Operands
    of different signs are handed to the other operation with the signs made
    equal, and the sign of the result is then set from the operands. */
module AddSub {
  import opened Comparison
  import opened Digits
  import opened Decimals
  import opened Buffer
  import opened Arith

  function Max(x: nat, y: nat): nat {
    if x >= y then x else y
  }

  /** The padded integer length `int_len` of both operands. */
  function IntLen(a: Decimal, b: Decimal): nat {
    Max(|a.intPart|, |b.intPart|)
  }

  /** The padded fraction length `frac_len` of both operands. */
  function FracLen(a: Decimal, b: Decimal): nat {
    Max(|a.fracPart|, |b.fracPart|)
  }

  /** The digits of `d` padded to `L` integer and `F` fraction digits and
      read together: the number `d` scaled by `10^F` (see `AlignedValue`). */
  function Aligned(d: Decimal, L: nat, F: nat): (s: string)
    requires d.Valid()
    ensures AllDigits(s)
  {
    PadDigits(d.intPart, L);
    PadDigits(d.fracPart, F);
    DigitsConcat(PadLeft(d.intPart, L), PadRight(d.fracPart, F));
    PadLeft(d.intPart, L) + PadRight(d.fracPart, F)
  }

  /** The value with `L` integer digits and `F` fraction digits whose digits,
      read together, render `v` (modulo `10^(L + F)`). */
  function Build(v: nat, L: nat, F: nat, isPositive: bool): (d: Decimal)
    ensures d.Valid() && |d.intPart| == L && |d.fracPart| == F && d.isPositive == isPositive
  {
    var s := ToDigits(v, L + F);
    Decimal(s[..L], s[L..], isPositive)
  }

  /** The parts of a `Build` are the two ends of its digits. */
  lemma BuildParts(v: nat, L: nat, F: nat, isPositive: bool, s: string, k: nat)
    requires k == L + F && s == ToDigits(v, k)
    ensures Build(v, L, F, isPositive) == Decimal(s[..L], s[L..], isPositive)
  {
  }

  /** The distance between two numbers. */
  function Diff(x: nat, y: nat): nat {
    if x >= y then x - y else y - x
  }

  /** What a carry or a borrow of `c` (zero or one) out of a column of
      weight `p` is worth. */
  function CarryWeight(c: nat, p: nat): nat {
    if c == 1 then p else 0
  }

  lemma CarryWeightTimesTen(c: nat, p: nat, q: nat)
    requires q == 10 * p
    ensures CarryWeight(c, q) == 10 * CarryWeight(c, p)
  {
  }

  /** A carry out of the leftmost of the `L + F` places does not show in
      the value built. */
  lemma BuildDropsCarry(v: nat, c: nat, L: nat, F: nat, isPositive: bool, t: nat)
    requires t == v + CarryWeight(c, Pow10(L + F))
    ensures Build(t, L, F, isPositive) == Build(v, L, F, isPositive)
  {
    if c == 1 {
      ToDigitsDropsPow10(v, L + F);
    }
  }

  /** A difference `d` below `m` with `d + y == x + CarryWeight(b, m)` and
      `y <= x` leaves no borrow. */
  lemma NoBorrowLeft(d: nat, b: nat, m: nat, y: nat, x: nat)
    requires d < m && y <= x && d + y == x + CarryWeight(b, m)
    ensures CarryWeight(b, m) == 0 && d == x - y
  {
  }

  /** What `a + b` returns on operands whose digits, padded to `L` integer
      and `F` fraction digits and read together, are `x` and `y`.  Same
      signs: the sum, without the carry out of the leftmost column, with the
      common sign.  Different signs: the difference of the magnitudes, with
      the sign of the operand whose padded digits are larger, and
      non-negative when they are equal. */
  function AddAligned(x: nat, y: nat, L: nat, F: nat, aPositive: bool, bPositive: bool): Decimal {
    if aPositive == bPositive then Build(x + y, L, F, aPositive)
    else Build(Diff(x, y), L, F, if x > y then aPositive else if x < y then bPositive else true)
  }

  /** What `a - b` returns on padded operands `x` and `y`.  Same signs: the
      difference of the magnitudes, with the sign of `a` when `a`'s padded
      digits are at least `b`'s and the opposite of `b`'s sign otherwise.
      Different signs: the sum of the magnitudes without the carry out of
      the leftmost column, with the sign of `a`. */
  function SubAligned(x: nat, y: nat, L: nat, F: nat, aPositive: bool, bPositive: bool): Decimal {
    if aPositive == bPositive then Build(Diff(x, y), L, F, if x >= y then aPositive else !bPositive)
    else Build(x + y, L, F, aPositive)
  }

  /** What `a + b` returns: digits of the padded lengths, with the
      operands' sign when they agree. */
  function AddSpec(a: Decimal, b: Decimal): (r: Decimal)
    requires a.Valid() && b.Valid()
    ensures r.Valid() && |r.intPart| == IntLen(a, b) && |r.fracPart| == FracLen(a, b)
    ensures a.isPositive == b.isPositive ==> r.isPositive == a.isPositive
  {
    var L, F := IntLen(a, b), FracLen(a, b);
    AddAligned(Val(Aligned(a, L, F)), Val(Aligned(b, L, F)), L, F, a.isPositive, b.isPositive)
  }

  /** What `a - b` returns: digits of the padded lengths, with the sign of
      `a` when the signs differ. */
  function SubSpec(a: Decimal, b: Decimal): (r: Decimal)
    requires a.Valid() && b.Valid()
    ensures r.Valid() && |r.intPart| == IntLen(a, b) && |r.fracPart| == FracLen(a, b)
    ensures a.isPositive != b.isPositive ==> r.isPositive == a.isPositive
  {
    var L, F := IntLen(a, b), FracLen(a, b);
    SubAligned(Val(Aligned(a, L, F)), Val(Aligned(b, L, F)), L, F, a.isPositive, b.isPositive)
  }

  /** `AddSpec` and `SubSpec` on operands with the digits of `a` and `b`
      and any signs, in terms of the padded numbers `x` and `y`. */
  lemma SpecsOnAligned(a: Decimal, b: Decimal, aPositive: bool, bPositive: bool, x: nat, y: nat)
    requires a.Valid() && b.Valid()
    requires x == Val(Aligned(a, IntLen(a, b), FracLen(a, b))) && y == Val(Aligned(b, IntLen(a, b), FracLen(a, b)))
    ensures AddSpec(a.(isPositive := aPositive), b.(isPositive := bPositive))
         == AddAligned(x, y, IntLen(a, b), FracLen(a, b), aPositive, bPositive)
    ensures SubSpec(a.(isPositive := aPositive), b.(isPositive := bPositive))
         == SubAligned(x, y, IntLen(a, b), FracLen(a, b), aPositive, bPositive)
  {
    var L, F := IntLen(a, b), FracLen(a, b);
    var a', b' := a.(isPositive := aPositive), b.(isPositive := bPositive);
    assert IntLen(a', b') == L && FracLen(a', b') == F;
    assert Aligned(a', L, F) == Aligned(a, L, F) && Aligned(b', L, F) == Aligned(b, L, F);
  }

  /** Operands already padded to `L` and `F` digits are their own padding. */
  lemma SpecsOnPadded(ai: string, af: string, bi: string, bf: string, x: nat, y: nat)
    requires AllDigits(ai) && AllDigits(af) && AllDigits(bi) && AllDigits(bf)
    requires |ai| == |bi| && |af| == |bf| && AllDigits(ai + af) && AllDigits(bi + bf)
    requires x == Val(ai + af) && y == Val(bi + bf)
    ensures SubSpec(Decimal(ai, af, true), Decimal(bi, bf, true)) == SubAligned(x, y, |ai|, |af|, true, true)
  {
    var a, b := Decimal(ai, af, true), Decimal(bi, bf, true);
    assert IntLen(a, b) == |ai| && FracLen(a, b) == |af|;
    assert Aligned(a, |ai|, |af|) == ai + af && Aligned(b, |ai|, |af|) == bi + bf;
    SpecsOnAligned(a, b, true, true, x, y);
    assert a.(isPositive := true) == a && b.(isPositive := true) == b;
  }

  /** `sub` with operands of the same sign takes the smaller padded number
      from the larger. */
  lemma SameSignsSub(x: nat, y: nat, L: nat, F: nat, aPositive: bool, bPositive: bool, big: nat, small: nat, sign: bool)
    requires aPositive == bPositive
    requires big == (if x >= y then x else y) && small == (if x >= y then y else x)
    requires sign == if x >= y then aPositive else !bPositive
    ensures small <= big && SubAligned(x, y, L, F, aPositive, bPositive) == Build(big - small, L, F, sign)
  {
  }

  /** `sub` with a negative `a` and a non-negative `b` adds the magnitudes
      and makes the sum negative; with a non-negative `a` and a negative `b`
      it adds them. */
  lemma DifferentSignsSub(x: nat, y: nat, L: nat, F: nat, aPositive: bool, bPositive: bool)
    requires aPositive != bPositive
    ensures !aPositive ==> AddAligned(x, y, L, F, true, bPositive).(isPositive := false) == SubAligned(x, y, L, F, aPositive, bPositive)
    ensures aPositive ==> AddAligned(x, y, L, F, aPositive, true) == SubAligned(x, y, L, F, aPositive, bPositive)
  {
  }

  /** `add` with operands of the same sign builds the sum. */
  lemma SameSignsAdd(x: nat, y: nat, L: nat, F: nat, isPositive: bool)
    ensures AddAligned(x, y, L, F, isPositive, isPositive) == Build(x + y, L, F, isPositive)
  {
  }

  /** `add` with operands of different signs takes the difference as
      `sub` does for two non-negative operands and then sets the sign. */
  lemma DifferentSignsAdd(x: nat, y: nat, L: nat, F: nat, aPositive: bool, bPositive: bool, sign: bool)
    requires aPositive != bPositive
    requires sign == if x > y then aPositive else if x < y then bPositive else true
    ensures SubAligned(x, y, L, F, true, true).(isPositive := sign) == AddAligned(x, y, L, F, aPositive, bPositive)
  {
  }

  /** How many operands are negative: the measure that ends the recursion
      between `Add` and `Sub`, which call each other only with non-negative
      operands. */
  function NegativeCount(a: Decimal, b: Decimal): nat {
    (if a.isPositive then 0 else 1) + (if b.isPositive then 0 else 1)
  }

  /** The columns of `add`'s loop as a function: the rightmost column of
      `x` and `y` is summed with `carry`, and the carry out of it is passed
      to the columns on its left.  The result is the digit string and the
      carry out of the leftmost column. */
  function ColumnSum(x: string, y: string, carry: nat): (r: (string, nat))
    requires AllDigits(x) && AllDigits(y) && |x| == |y| && carry <= 1
    ensures |r.0| == |x| && AllDigits(r.0) && r.1 <= 1
    decreases |x|
  {
    if |x| == 0 then ([], carry)
    else
      var n := |x| - 1;
      var t := DigitValue(x[n]) + DigitValue(y[n]) + carry;
      var rest := ColumnSum(x[..n], y[..n], if t >= 10 then 1 else 0);
      (rest.0 + [DigitChar(if t >= 10 then t - 10 else t)], rest.1)
  }

  /** The columns of `sub`'s loop as a function: the rightmost digit of `y`
      and `borrow` are taken from that of `x`, borrowing ten when the
      difference is negative. */
  function ColumnDiff(x: string, y: string, borrow: nat): (r: (string, nat))
    requires AllDigits(x) && AllDigits(y) && |x| == |y| && borrow <= 1
    ensures |r.0| == |x| && AllDigits(r.0) && r.1 <= 1
    decreases |x|
  {
    if |x| == 0 then ([], borrow)
    else
      var n := |x| - 1;
      var t := DigitValue(x[n]) - DigitValue(y[n]) - borrow;
      var rest := ColumnDiff(x[..n], y[..n], if t < 0 then 1 else 0);
      (rest.0 + [DigitChar(if t < 0 then t + 10 else t)], rest.1)
  }

  /** The columns of the first `i + 1` digits are those of the first `i`
      digits followed by column `i`. */
  lemma ColumnSumPrefix(x: string, y: string, i: nat, carry: nat)
    requires AllDigits(x) && AllDigits(y) && |x| == |y| && i < |x| && carry <= 1
    ensures var t := DigitValue(x[i]) + DigitValue(y[i]) + carry;
      var rest := ColumnSum(x[..i], y[..i], if t >= 10 then 1 else 0);
      ColumnSum(x[..i + 1], y[..i + 1], carry) == (rest.0 + [DigitChar(if t >= 10 then t - 10 else t)], rest.1)
  {
    assert x[..i + 1][..i] == x[..i] && y[..i + 1][..i] == y[..i];
  }

  lemma ColumnDiffPrefix(x: string, y: string, i: nat, borrow: nat)
    requires AllDigits(x) && AllDigits(y) && |x| == |y| && i < |x| && borrow <= 1
    ensures var t := DigitValue(x[i]) - DigitValue(y[i]) - borrow;
      var rest := ColumnDiff(x[..i], y[..i], if t < 0 then 1 else 0);
      ColumnDiff(x[..i + 1], y[..i + 1], borrow) == (rest.0 + [DigitChar(if t < 0 then t + 10 else t)], rest.1)
  {
    assert x[..i + 1][..i] == x[..i] && y[..i + 1][..i] == y[..i];
  }

  /** One turn of `SumColumns`' loop: column `i` gives `digit` and the carry
      `next`, and the digits found so far grow by one on the left. */
  lemma SumColumnsStep(x: string, y: string, carryIn: nat, i: nat, carried: nat, next: nat, digit: nat, sum: string)
    requires AllDigits(x) && AllDigits(y) && |x| == |y| && i < |x|
    requires carryIn <= 1 && carried <= 1 && next <= 1 && digit < 10
    requires digit + 10 * next == DigitValue(x[i]) + DigitValue(y[i]) + carried
    requires ColumnSum(x[..i + 1], y[..i + 1], carried).0 + sum == ColumnSum(x, y, carryIn).0
    requires ColumnSum(x[..i + 1], y[..i + 1], carried).1 == ColumnSum(x, y, carryIn).1
    ensures ColumnSum(x[..i], y[..i], next).0 + ([DigitChar(digit)] + sum) == ColumnSum(x, y, carryIn).0
    ensures ColumnSum(x[..i], y[..i], next).1 == ColumnSum(x, y, carryIn).1
  {
    ColumnSumPrefix(x, y, i, carried);
    var rest := ColumnSum(x[..i], y[..i], next);
    assert rest.0 + [DigitChar(digit)] + sum == rest.0 + ([DigitChar(digit)] + sum);
  }

  /** One turn of `DiffColumns`' loop. */
  lemma DiffColumnsStep(x: string, y: string, borrowIn: nat, i: nat, borrowed: nat, next: nat, digit: nat, diff: string)
    requires AllDigits(x) && AllDigits(y) && |x| == |y| && i < |x|
    requires borrowIn <= 1 && borrowed <= 1 && next <= 1 && digit < 10
    requires digit + DigitValue(y[i]) + borrowed == DigitValue(x[i]) + 10 * next
    requires ColumnDiff(x[..i + 1], y[..i + 1], borrowed).0 + diff == ColumnDiff(x, y, borrowIn).0
    requires ColumnDiff(x[..i + 1], y[..i + 1], borrowed).1 == ColumnDiff(x, y, borrowIn).1
    ensures ColumnDiff(x[..i], y[..i], next).0 + ([DigitChar(digit)] + diff) == ColumnDiff(x, y, borrowIn).0
    ensures ColumnDiff(x[..i], y[..i], next).1 == ColumnDiff(x, y, borrowIn).1
  {
    ColumnDiffPrefix(x, y, i, borrowed);
    var rest := ColumnDiff(x[..i], y[..i], next);
    assert rest.0 + [DigitChar(digit)] + diff == rest.0 + ([DigitChar(digit)] + diff);
  }

  /** The column loop of `add`: the digits of `x` and `y`, zipped and
      reversed, summed with a carry that starts at `carryIn`. */
  method SumColumns(x: string, y: string, carryIn: nat) returns (sum: string, carryOut: nat)
    requires AllDigits(x) && AllDigits(y) && |x| == |y| && carryIn <= 1
    ensures (sum, carryOut) == ColumnSum(x, y, carryIn)
  {
    var nextNum: nat := carryIn;
    sum := "";
    var i := |x|;
    assert x[..i] == x && y[..i] == y;
    assert ColumnSum(x, y, carryIn).0 + sum == ColumnSum(x, y, carryIn).0;
    while i > 0
      invariant 0 <= i <= |x| && nextNum <= 1
      invariant ColumnSum(x[..i], y[..i], nextNum).0 + sum == ColumnSum(x, y, carryIn).0
      invariant ColumnSum(x[..i], y[..i], nextNum).1 == ColumnSum(x, y, carryIn).1
    {
      ghost var carried := nextNum;
      i := i - 1;
      var sDigit, oDigit := DigitValue(x[i]), DigitValue(y[i]);
      var cSum: nat := sDigit + oDigit;
      if nextNum > 0 {
        cSum := cSum + nextNum;
        nextNum := 0;
      }
      if cSum >= 10 {
        cSum := cSum - 10;
        nextNum := nextNum + 1;
      }
      SumColumnsStep(x, y, carryIn, i, carried, nextNum, cSum, sum);
      sum := [DigitChar(cSum)] + sum;
    }
    carryOut := nextNum;
    assert x[..0] == [] && y[..0] == [];
    assert [] + sum == sum;
  }

  /** The column loop of `sub`: the digits of `y` taken from those of `x`,
      zipped and reversed, with a borrow that starts at `borrowIn`. */
  method DiffColumns(x: string, y: string, borrowIn: nat) returns (diff: string, borrowOut: nat)
    requires AllDigits(x) && AllDigits(y) && |x| == |y| && borrowIn <= 1
    ensures (diff, borrowOut) == ColumnDiff(x, y, borrowIn)
  {
    var borrow: int := borrowIn;
    diff := "";
    var i := |x|;
    assert x[..i] == x && y[..i] == y;
    assert ColumnDiff(x, y, borrowIn).0 + diff == ColumnDiff(x, y, borrowIn).0;
    while i > 0
      invariant 0 <= i <= |x| && 0 <= borrow <= 1
      invariant ColumnDiff(x[..i], y[..i], borrow).0 + diff == ColumnDiff(x, y, borrowIn).0
      invariant ColumnDiff(x[..i], y[..i], borrow).1 == ColumnDiff(x, y, borrowIn).1
    {
      ghost var borrowed := borrow;
      i := i - 1;
      var sDigit, oDigit := DigitValue(x[i]), DigitValue(y[i]);
      var cSub := sDigit - oDigit - borrow;
      borrow := 0;
      if cSub < 0 {
        cSub := cSub + 10;
        borrow := borrow + 1;
      }
      DiffColumnsStep(x, y, borrowIn, i, borrowed, borrow, cSub, diff);
      diff := [DigitChar(cSub)] + diff;
    }
    borrowOut := borrow;
    assert x[..0] == [] && y[..0] == [];
    assert [] + diff == diff;
  }

  /** The columns add up: the digits and the carry out weigh as much as the
      two numbers and the carry in. */
  lemma {:induction false} ColumnSumValue(x: string, y: string, carry: nat)
    requires AllDigits(x) && AllDigits(y) && |x| == |y| && carry <= 1
    ensures Val(ColumnSum(x, y, carry).0) + CarryWeight(ColumnSum(x, y, carry).1, Pow10(|x|)) == Val(x) + Val(y) + carry
  {
    if |x| > 0 {
      var n := |x| - 1;
      var t := DigitValue(x[n]) + DigitValue(y[n]) + carry;
      var next := if t >= 10 then 1 else 0;
      var digit := if t >= 10 then t - 10 else t;
      var rest := ColumnSum(x[..n], y[..n], next);
      var r := ColumnSum(x, y, carry);
      ColumnSumValue(x[..n], y[..n], next);
      ValAppend(rest.0, DigitChar(digit));
      CarryWeightTimesTen(rest.1, Pow10(n), Pow10(|x|));
      SumColumnStep(Val(rest.0), CarryWeight(rest.1, Pow10(n)), CarryWeight(rest.1, Pow10(|x|)),
                    Val(x[..n]), Val(y[..n]), next, digit, DigitValue(x[n]), DigitValue(y[n]), carry,
                    Val(r.0), Val(x), Val(y));
    }
  }

  /** The columns subtract: the digits, `y` and the borrow in weigh as much
      as `x` and the borrow out. */
  lemma {:induction false} ColumnDiffValue(x: string, y: string, borrow: nat)
    requires AllDigits(x) && AllDigits(y) && |x| == |y| && borrow <= 1
    ensures Val(ColumnDiff(x, y, borrow).0) + Val(y) + borrow == Val(x) + CarryWeight(ColumnDiff(x, y, borrow).1, Pow10(|x|))
  {
    if |x| > 0 {
      var n := |x| - 1;
      var t := DigitValue(x[n]) - DigitValue(y[n]) - borrow;
      var next := if t < 0 then 1 else 0;
      var digit := if t < 0 then t + 10 else t;
      var rest := ColumnDiff(x[..n], y[..n], next);
      var r := ColumnDiff(x, y, borrow);
      ColumnDiffValue(x[..n], y[..n], next);
      ValAppend(rest.0, DigitChar(digit));
      CarryWeightTimesTen(rest.1, Pow10(n), Pow10(|x|));
      DiffColumnStep(Val(rest.0), CarryWeight(rest.1, Pow10(n)), CarryWeight(rest.1, Pow10(|x|)),
                     Val(x[..n]), Val(y[..n]), next, digit, DigitValue(x[n]), DigitValue(y[n]), borrow,
                     Val(r.0), Val(x), Val(y));
    }
  }

  /** Digits `r` and a carry `c` out of their leftmost column that weigh as
      much as `x`, `y` and a carry `cin` into the rightmost column. */
  predicate AddsUp(r: string, c: nat, x: string, y: string, cin: nat)
    requires AllDigits(r) && AllDigits(x) && AllDigits(y)
  {
    Val(r) + CarryWeight(c, Pow10(|r|)) == Val(x) + Val(y) + cin
  }

  /** Digits `r` that, with `y` and a borrow `bin` into the rightmost column,
      weigh as much as `x` and a borrow `b` out of the leftmost column. */
  predicate SubtractsTo(r: string, b: nat, x: string, y: string, bin: nat)
    requires AllDigits(r) && AllDigits(x) && AllDigits(y)
  {
    Val(r) + Val(y) + bin == Val(x) + CarryWeight(b, Pow10(|r|))
  }

  /** Running the columns of the fraction digits and then, with the carry
      out of them, the columns of the integer digits adds the two parts put
      together. */
  lemma SumOfParts(ai: string, af: string, bi: string, bf: string, ri: string, rf: string, c1: nat, c2: nat)
    requires AllDigits(ai) && AllDigits(af) && AllDigits(bi) && AllDigits(bf) && AllDigits(ri) && AllDigits(rf)
    requires |rf| == |af| == |bf| && |ri| == |ai| == |bi| && c1 <= 1 && c2 <= 1
    requires AddsUp(rf, c1, af, bf, 0) && AddsUp(ri, c2, ai, bi, c1)
    ensures AllDigits(ai + af) && AllDigits(bi + bf) && AllDigits(ri + rf)
    ensures AddsUp(ri + rf, c2, ai + af, bi + bf, 0) && Val(ri + rf) < Pow10(|ri + rf|)
  {
    var pf, pl := Pow10(|rf|), Pow10(|ri|);
    Pow10Add(|ri|, |rf|);
    var m := Pow10(|ri + rf|);
    ValBound(ri);
    ValBound(rf);
    ValConcat(ai, af);
    ValConcat(bi, bf);
    ValConcat(ri, rf);
    TwoPartSum(Val(ri), Val(rf), Val(ai), Val(af), Val(bi), Val(bf), Val(ri + rf), Val(ai + af), Val(bi + bf),
      c1, CarryWeight(c1, pf), CarryWeight(c2, pl), CarryWeight(c2, m), pf, pl, m);
  }

  /** Running the subtraction columns of the fraction digits and then, with
      the borrow out of them, those of the integer digits subtracts the two
      parts put together. */
  lemma DiffOfParts(xi: string, xf: string, yi: string, yf: string, ri: string, rf: string, b1: nat, b2: nat)
    requires AllDigits(xi) && AllDigits(xf) && AllDigits(yi) && AllDigits(yf) && AllDigits(ri) && AllDigits(rf)
    requires |rf| == |xf| == |yf| && |ri| == |xi| == |yi| && b1 <= 1 && b2 <= 1
    requires SubtractsTo(rf, b1, xf, yf, 0) && SubtractsTo(ri, b2, xi, yi, b1)
    ensures AllDigits(xi + xf) && AllDigits(yi + yf) && AllDigits(ri + rf)
    ensures SubtractsTo(ri + rf, b2, xi + xf, yi + yf, 0) && Val(ri + rf) < Pow10(|ri + rf|)
  {
    var pf, pl := Pow10(|rf|), Pow10(|ri|);
    Pow10Add(|ri|, |rf|);
    var m := Pow10(|ri + rf|);
    ValBound(ri);
    ValBound(rf);
    ValConcat(xi, xf);
    ValConcat(yi, yf);
    ValConcat(ri, rf);
    TwoPartDiff(Val(ri), Val(rf), Val(xi), Val(xf), Val(yi), Val(yf), Val(ri + rf), Val(xi + xf), Val(yi + yf),
      b1, CarryWeight(b1, pf), CarryWeight(b2, pl), CarryWeight(b2, m), pf, pl, m);
  }

  /** The tuple order on padded digit strings is the order of the scaled
      numbers. */
  lemma PaddedOrder(ai: string, af: string, bi: string, bf: string)
    requires AllDigits(ai) && AllDigits(af) && AllDigits(bi) && AllDigits(bf)
    requires |ai| == |bi| && |af| == |bf|
    ensures AllDigits(ai + af) && AllDigits(bi + bf)
    ensures CompareTuple(ai, af, bi, bf) == CompareNat(Val(ai + af), Val(bi + bf))
  {
    CompareStrConcat(ai, af, bi, bf);
    ValConcat(ai, af);
    ValConcat(bi, bf);
    CompareStrIsNumeric(ai + af, bi + bf);
  }

  /** A digit string split after `L` digits is the value built from its
      number. */
  lemma BuildOf(s: string, L: nat, F: nat, isPositive: bool)
    requires AllDigits(s) && |s| == L + F
    ensures Build(Val(s), L, F, isPositive) == Decimal(s[..L], s[L..], isPositive)
  {
    ToDigitsVal(s);
    BuildParts(Val(s), L, F, isPositive, s, |s|);
  }

  /** Digits `s` that with a carry `c` out of their leftmost place weigh
      `t` are the value built from `t`. */
  lemma BuildOfSum(s: string, c: nat, L: nat, F: nat, isPositive: bool, t: nat)
    requires AllDigits(s) && |s| == L + F && Val(s) + CarryWeight(c, Pow10(|s|)) == t
    ensures Build(t, L, F, isPositive) == Decimal(s[..L], s[L..], isPositive)
  {
    BuildDropsCarry(Val(s), c, L, F, isPositive, t);
    BuildOf(s, L, F, isPositive);
  }

  /** Digits `s` below `10^|s|` that with `y` weigh as much as `x` and a
      borrow `b` out of their leftmost place, where `y <= x`, are the
      value built from `x - y`. */
  lemma BuildOfDiff(s: string, b: nat, L: nat, F: nat, isPositive: bool, x: nat, y: nat)
    requires AllDigits(s) && |s| == L + F && Val(s) < Pow10(|s|)
    requires y <= x && Val(s) + y == x + CarryWeight(b, Pow10(|s|))
    ensures Build(x - y, L, F, isPositive) == Decimal(s[..L], s[L..], isPositive)
  {
    NoBorrowLeft(Val(s), b, Pow10(|s|), y, x);
    BuildOf(s, L, F, isPositive);
  }

  /** The two column loops of `add`, the fraction digits first and then
      the integer digits with the carry out of them, compute `AddAligned`
      for operands of the same sign. */
  lemma ColumnsAdd(ai: string, af: string, bi: string, bf: string, isPositive: bool, x: nat, y: nat)
    requires AllDigits(ai) && AllDigits(af) && AllDigits(bi) && AllDigits(bf)
    requires |ai| == |bi| && |af| == |bf| && AllDigits(ai + af) && AllDigits(bi + bf)
    requires x == Val(ai + af) && y == Val(bi + bf)
    ensures AddAligned(x, y, |ai|, |af|, isPositive, isPositive)
         == Decimal(ColumnSum(ai, bi, ColumnSum(af, bf, 0).1).0, ColumnSum(af, bf, 0).0, isPositive)
  {
    var fr := ColumnSum(af, bf, 0);
    var ir := ColumnSum(ai, bi, fr.1);
    ColumnSumValue(af, bf, 0);
    ColumnSumValue(ai, bi, fr.1);
    SumOfParts(ai, af, bi, bf, ir.0, fr.0, fr.1, ir.1);
    BuildOfSum(ir.0 + fr.0, ir.1, |ai|, |af|, isPositive, x + y);
    assert (ir.0 + fr.0)[..|ai|] == ir.0 && (ir.0 + fr.0)[|ai|..] == fr.0;
    SameSignsAdd(x, y, |ai|, |af|, isPositive);
  }

  /** The two column loops of `sub` on the larger padded number `x` and the
      smaller `y` build the difference. */
  lemma ColumnsSub(xi: string, xf: string, yi: string, yf: string, isPositive: bool, x: nat, y: nat)
    requires AllDigits(xi) && AllDigits(xf) && AllDigits(yi) && AllDigits(yf)
    requires |xi| == |yi| && |xf| == |yf| && AllDigits(xi + xf) && AllDigits(yi + yf)
    requires x == Val(xi + xf) && y == Val(yi + yf) && y <= x
    ensures Build(x - y, |xi|, |xf|, isPositive)
         == Decimal(ColumnDiff(xi, yi, ColumnDiff(xf, yf, 0).1).0, ColumnDiff(xf, yf, 0).0, isPositive)
  {
    var fr := ColumnDiff(xf, yf, 0);
    var ir := ColumnDiff(xi, yi, fr.1);
    ColumnDiffValue(xf, yf, 0);
    ColumnDiffValue(xi, yi, fr.1);
    DiffOfParts(xi, xf, yi, yf, ir.0, fr.0, fr.1, ir.1);
    BuildOfDiff(ir.0 + fr.0, ir.1, |xi|, |xf|, isPositive, x, y);
    assert (ir.0 + fr.0)[..|xi|] == ir.0 && (ir.0 + fr.0)[|xi|..] == fr.0;
  }

  /** The operands as `add` and `sub` pad them: the padded digit strings
      and the numbers `x` and `y` they denote, read together, with their
      order. */
  lemma PaddedOperands(a: Decimal, b: Decimal, ai: string, af: string, bi: string, bf: string) returns (x: nat, y: nat)
    requires a.Valid() && b.Valid()
    requires ai == PadLeft(a.intPart, IntLen(a, b)) && bi == PadLeft(b.intPart, IntLen(a, b))
    requires af == PadRight(a.fracPart, FracLen(a, b)) && bf == PadRight(b.fracPart, FracLen(a, b))
    ensures AllDigits(ai) && AllDigits(af) && AllDigits(bi) && AllDigits(bf)
    ensures |ai| == |bi| == IntLen(a, b) && |af| == |bf| == FracLen(a, b)
    ensures AllDigits(ai + af) && AllDigits(bi + bf) && x == Val(ai + af) && y == Val(bi + bf)
    ensures x == Val(Aligned(a, IntLen(a, b), FracLen(a, b))) && y == Val(Aligned(b, IntLen(a, b), FracLen(a, b)))
    ensures CompareTuple(ai, af, bi, bf) == CompareNat(x, y)
  {
    var L, F := IntLen(a, b), FracLen(a, b);
    PadDigits(a.intPart, L);
    PadDigits(b.intPart, L);
    PadDigits(a.fracPart, F);
    PadDigits(b.fracPart, F);
    PaddedOrder(ai, af, bi, bf);
    x, y := Val(ai + af), Val(bi + bf);
  }

  /** `a + b` */
  method Add(a: Decimal, b: Decimal) returns (r: Decimal)
    requires a.Valid() && b.Valid()
    ensures r == AddSpec(a, b)
    decreases NegativeCount(a, b)
  {
    var intLen := Max(|a.intPart|, |b.intPart|);
    var aInt := Pad(a.intPart, intLen, true);
    var bInt := Pad(b.intPart, intLen, true);
    var fracLen := Max(|a.fracPart|, |b.fracPart|);
    var aFrac := Pad(a.fracPart, fracLen, false);
    var bFrac := Pad(b.fracPart, fracLen, false);

    var order := CompareTuple(aInt, aFrac, bInt, bFrac);
    var biggerSign := if order == Greater then a.isPositive
      else if order == Less then b.isPositive
      else true;

    ghost var x, y := PaddedOperands(a, b, aInt, aFrac, bInt, bFrac);
    assert intLen == IntLen(a, b) && fracLen == FracLen(a, b);
    SpecsOnAligned(a, b, a.isPositive, b.isPositive, x, y);
    assert a.(isPositive := a.isPositive) == a && b.(isPositive := b.isPositive) == b;

    if a.isPositive == b.isPositive {
      var resFrac, carry := SumColumns(aFrac, bFrac, 0);
      var resInt, carryOut := SumColumns(aInt, bInt, carry);
      r := Decimal(resInt, resFrac, a.isPositive);
      ColumnsAdd(aInt, aFrac, bInt, bFrac, a.isPositive, x, y);
    } else {
      var a2 := Decimal(aInt, aFrac, true);
      var b2 := Decimal(bInt, bFrac, true);
      SpecsOnPadded(aInt, aFrac, bInt, bFrac, x, y);
      r := Sub(a2, b2);
      r := r.(isPositive := biggerSign);
      DifferentSignsAdd(x, y, intLen, fracLen, a.isPositive, b.isPositive, biggerSign);
    }
  }

  /** `a - b` */
  method Sub(a: Decimal, b: Decimal) returns (r: Decimal)
    requires a.Valid() && b.Valid()
    ensures r == SubSpec(a, b)
    decreases NegativeCount(a, b)
  {
    var intLen := Max(|a.intPart|, |b.intPart|);
    var aInt := Pad(a.intPart, intLen, true);
    var bInt := Pad(b.intPart, intLen, true);
    var fracLen := Max(|a.fracPart|, |b.fracPart|);
    var aFrac := Pad(a.fracPart, fracLen, false);
    var bFrac := Pad(b.fracPart, fracLen, false);

    var aFirst := CompareStr(aInt, bInt) == Greater || (aInt == bInt && CompareStr(aFrac, bFrac) != Less);
    var biggerInt, smallerInt, biggerFrac, smallerFrac :=
      if aFirst then aInt else bInt, if aFirst then bInt else aInt,
      if aFirst then aFrac else bFrac, if aFirst then bFrac else aFrac;
    var biggerSign := if CompareTuple(aInt, aFrac, bInt, bFrac) != Less then a.isPositive else !b.isPositive;

    ghost var x, y := PaddedOperands(a, b, aInt, aFrac, bInt, bFrac);
    assert intLen == IntLen(a, b) && fracLen == FracLen(a, b);
    SpecsOnAligned(a, b, a.isPositive, b.isPositive, x, y);
    assert a.(isPositive := a.isPositive) == a && b.(isPositive := b.isPositive) == b;
    CompareStrEqual(aInt, bInt);
    assert aFirst <==> x >= y;

    if a.isPositive == b.isPositive {
      var resFrac, borrow := DiffColumns(biggerFrac, smallerFrac, 0);
      var resInt, borrowOut := DiffColumns(biggerInt, smallerInt, borrow);
      r := Decimal(resInt, resFrac, biggerSign);
      ghost var big, small := if aFirst then x else y, if aFirst then y else x;
      SameSignsSub(x, y, intLen, fracLen, a.isPositive, b.isPositive, big, small, biggerSign);
      ColumnsSub(biggerInt, biggerFrac, smallerInt, smallerFrac, biggerSign, big, small);
    } else if !a.isPositive {
      var a2 := a.(isPositive := true);
      SpecsOnAligned(a, b, true, b.isPositive, x, y);
      r := Add(a2, b);
      r := r.(isPositive := false);
      DifferentSignsSub(x, y, intLen, fracLen, a.isPositive, b.isPositive);
    } else {
      var b2 := b.(isPositive := true);
      SpecsOnAligned(a, b, a.isPositive, true, x, y);
      r := Add(a, b2);
      DifferentSignsSub(x, y, intLen, fracLen, a.isPositive, b.isPositive);
    }
  }
}
