/** ASCII digit strings and the natural numbers they denote.  `Val(s)` reads
    `s` as a base-10 numeral, most significant digit first; `ToDigits(v, k)`
    renders `v` in exactly `k` digits.  `TrimStart` and `TrimEnd` are Rust's
    `trim_start_matches('0')` and `trim_end_matches('0')`. */
module Digits {
  import opened Comparison
  import opened Arith

  predicate IsDigit(c: char) {
    '0' <= c <= '9'
  }

  predicate AllDigits(s: string) {
    forall i :: 0 <= i < |s| ==> IsDigit(s[i])
  }

  predicate AllZeros(s: string) {
    forall i :: 0 <= i < |s| ==> s[i] == '0'
  }

  /** `c as u32 - 48` on a digit. */
  function DigitValue(c: char): (v: nat)
    requires IsDigit(c)
    ensures v < 10
  {
    c as int - '0' as int
  }

  /** `char::from_u32(v + 48).unwrap()` on a value below ten. */
  function DigitChar(v: nat): (c: char)
    requires v < 10
    ensures IsDigit(c) && DigitValue(c) == v
  {
    (v + '0' as int) as char
  }

  /** `"0".repeat(k)` */
  function Zeros(k: nat): (z: string)
    ensures |z| == k && AllZeros(z) && AllDigits(z)
  {
    seq(k, _ => '0')
  }

  /** Only `Zeros(k)` has `k` zeros and nothing else. */
  lemma ZerosAre(s: string)
    requires AllZeros(s)
    ensures s == Zeros(|s|)
  {
  }

  function Pow10(k: nat): (p: nat)
    ensures p >= 1
  {
    if k == 0 then 1 else 10 * Pow10(k - 1)
  }

  lemma {:induction false} Pow10Add(a: nat, b: nat)
    ensures Pow10(a + b) == Pow10(a) * Pow10(b)
  {
    if b > 0 {
      Pow10Add(a, b - 1);
      calc {
        Pow10(a + b);
        10 * Pow10(a + b - 1);
        10 * (Pow10(a) * Pow10(b - 1));
        Pow10(a) * (10 * Pow10(b - 1));
      }
    }
  }

  /** `Pow10Add` for an exponent `c` already known to be `a + b`. */
  lemma Pow10Sum(a: nat, b: nat, c: nat)
    requires c == a + b
    ensures Pow10(c) == Pow10(a) * Pow10(b)
  {
    Pow10Add(a, b);
  }

  lemma Pow10Shift(m: nat, m': nat)
    requires m' == m + 1
    ensures Pow10(m') == 10 * Pow10(m)
  {
  }

  lemma Pow10Monotone(a: nat, b: nat)
    requires a <= b
    ensures Pow10(a) <= Pow10(b)
  {
    Pow10Add(a, b - a);
  }

  /** The number a digit string denotes. */
  function Val(s: string): nat
    requires AllDigits(s)
  {
    if s == [] then 0 else Val(s[..|s| - 1]) * 10 + DigitValue(s[|s| - 1])
  }

  lemma {:induction false} ValBound(s: string)
    requires AllDigits(s)
    ensures Val(s) < Pow10(|s|)
  {
    if s != [] {
      ValBound(s[..|s| - 1]);
    }
  }

  lemma DigitsConcat(s: string, t: string)
    requires AllDigits(s) && AllDigits(t)
    ensures AllDigits(s + t)
  {
    forall i | 0 <= i < |s + t| ensures IsDigit((s + t)[i]) {
      if i < |s| { assert (s + t)[i] == s[i]; } else { assert (s + t)[i] == t[i - |s|]; }
    }
  }

  lemma {:induction false} ValConcat(s: string, t: string)
    requires AllDigits(s) && AllDigits(t)
    ensures AllDigits(s + t)
    ensures Val(s + t) == Val(s) * Pow10(|t|) + Val(t)
  {
    if t != [] {
      var t' := t[..|t| - 1];
      DigitsConcat(s, t);
      assert (s + t)[..|s + t| - 1] == s + t';
      assert (s + t)[|s + t| - 1] == t[|t| - 1];
      ValConcat(s, t');
      assert Pow10(|t|) == 10 * Pow10(|t'|);
      ShiftStep(Val(s + t), Val(s + t'), Val(s), Val(t'), DigitValue(t[|t| - 1]), Pow10(|t'|), Pow10(|t|), Val(t));
    } else {
      assert s + t == s;
    }
  }

  /** A digit put in front of `t` counts at the weight `e == 10^|t|`. */
  lemma ValCons(c: char, t: string, e: nat)
    requires IsDigit(c) && AllDigits(t) && e == Pow10(|t|)
    ensures Val([c] + t) == DigitValue(c) * e + Val(t)
  {
    ValConcat([c], t);
    assert Val([c]) == DigitValue(c) by {
      assert [c][..0] == [];
    }
    RenameFactors(Val([c] + t), Val([c]), Pow10(|t|), Val(t), DigitValue(c), e);
  }

  /** A digit put at the end shifts the number one place. */
  lemma ValAppend(s: string, c: char)
    requires AllDigits(s) && IsDigit(c)
    ensures AllDigits(s + [c]) && Val(s + [c]) == Val(s) * 10 + DigitValue(c)
  {
    DigitsConcat(s, [c]);
    assert (s + [c])[..|s|] == s;
  }

  /** One more digit on the right of `a` followed by `b`: the step of
      `ValConcat` on numbers. */
  lemma ShiftStep(u: int, u': int, a: int, b: int, d: int, p: int, q: int, w: int)
    requires u' == a * p + b && u == u' * 10 + d && q == 10 * p && w == b * 10 + d
    ensures u == a * q + w
  {
  }

  lemma {:induction false} ValZeros(z: string)
    requires AllZeros(z)
    ensures AllDigits(z) && Val(z) == 0
  {
    if z != [] {
      ValZeros(z[..|z| - 1]);
    }
  }

  /** Leading zeros do not change the number. */
  lemma ValLeadingZeros(z: string, s: string)
    requires AllZeros(z) && AllDigits(s)
    ensures AllDigits(z + s) && Val(z + s) == Val(s)
  {
    ValZeros(z);
    ValConcat(z, s);
  }

  /** Trailing zeros scale the number by a power of ten. */
  lemma ValTrailingZeros(s: string, z: string)
    requires AllDigits(s) && AllZeros(z)
    ensures AllDigits(s + z) && Val(s + z) == Val(s) * Pow10(|z|)
  {
    ValZeros(z);
    ValConcat(s, z);
  }

  lemma {:induction false} ValZeroIff(s: string)
    requires AllDigits(s)
    ensures Val(s) == 0 <==> AllZeros(s)
  {
    if s != [] {
      var s' := s[..|s| - 1];
      ValZeroIff(s');
      if AllZeros(s) {
        assert AllZeros(s');
      } else if AllZeros(s') {
        assert s[|s| - 1] != '0';
      }
    }
  }

  /** A digit string of length at least one whose first digit is not zero
      denotes at least `10^(|s| - 1)`. */
  lemma {:induction false} ValLowerBound(s: string)
    requires AllDigits(s) && s != [] && s[0] != '0'
    ensures Val(s) >= Pow10(|s| - 1)
  {
    if |s| > 1 {
      ValLowerBound(s[..|s| - 1]);
    }
  }

  /** `v mod 10^k` written in exactly `k` digits. */
  function ToDigits(v: nat, k: nat): (s: string)
    ensures |s| == k && AllDigits(s)
  {
    if k == 0 then [] else ToDigits(v / 10, k - 1) + [DigitChar(v % 10)]
  }

  /** The last of `k` digits of `v` is `v % 10` after the first `k - 1`
      digits of `v / 10`. */
  lemma ValOfLastDigit(v: nat, k: nat, w: nat, d: nat)
    requires k > 0 && w == v / 10 && d == v % 10 && v == w * 10 + d
    requires Val(ToDigits(w, k - 1)) == w
    ensures Val(ToDigits(v, k)) == v
  {
    var t := ToDigits(w, k - 1);
    assert ToDigits(v, k) == t + [DigitChar(d)];
    ValAppend(t, DigitChar(d));
  }

  lemma {:induction false} ValToDigits(v: nat, k: nat)
    requires v < Pow10(k)
    ensures Val(ToDigits(v, k)) == v
  {
    if k > 0 {
      var w, d := v / 10, v % 10;
      assert Pow10(k) == 10 * Pow10(k - 1);
      DivModTen(v, Pow10(k - 1));
      ValToDigits(w, k - 1);
      ValOfLastDigit(v, k, w, d);
    }
  }

  /** Rendering in `k` digits forgets a whole `10^k`: a carry out of the
      leftmost place is dropped. */
  lemma {:induction false} ToDigitsDropsPow10(v: nat, k: nat)
    ensures ToDigits(v + Pow10(k), k) == ToDigits(v, k)
  {
    if k > 0 {
      var p := Pow10(k - 1);
      assert Pow10(k) == 10 * p;
      DivModTenShift(v, p);
      ToDigitsDropsPow10(v / 10, k - 1);
    }
  }

  lemma {:induction false} ToDigitsVal(s: string)
    requires AllDigits(s)
    ensures ToDigits(Val(s), |s|) == s
  {
    if s != [] {
      var s' := s[..|s| - 1];
      ToDigitsVal(s');
      assert s == s' + [s[|s| - 1]];
    }
  }

  lemma {:induction false} ToDigitsZero(k: nat)
    ensures AllZeros(ToDigits(0, k))
  {
    if k > 0 {
      ToDigitsZero(k - 1);
    }
  }

  /** On digit strings of equal length the lexicographic order of the
      strings is the order of the numbers. */
  lemma {:induction false} CompareStrIsNumeric(s: string, t: string)
    requires AllDigits(s) && AllDigits(t) && |s| == |t|
    ensures CompareStr(s, t) == CompareNat(Val(s), Val(t))
  {
    if s != [] {
      var s', t' := s[..|s| - 1], t[..|t| - 1];
      var c, d := s[|s| - 1], t[|t| - 1];
      assert s == s' + [c] && t == t' + [d];
      CompareStrConcat(s', [c], t', [d]);
      CompareStrIsNumeric(s', t');
      CompareStrEqual(s', t');
      assert CompareStr([c], [d]) == CompareChar(c, d);
      assert Val(s) == Val(s') * 10 + DigitValue(c);
      assert Val(t) == Val(t') * 10 + DigitValue(d);
      assert c < d <==> DigitValue(c) < DigitValue(d);
    }
  }

  /** `trim_start_matches('0')` */
  function TrimStart(s: string): (r: string)
    ensures |r| <= |s| && r == s[|s| - |r|..]
    ensures AllZeros(s[..|s| - |r|])
    ensures r == [] || r[0] != '0'
  {
    if s != [] && s[0] == '0' then
      var r := TrimStart(s[1..]);
      DropLeadingZero(s, r);
      r
    else s
  }

  /** A zero in front of a run of zeros and a kept suffix `r` of `s[1..]`
      joins the run. */
  lemma DropLeadingZero(s: string, r: string)
    requires s != [] && s[0] == '0' && |r| <= |s| - 1
    requires r == s[1..][|s| - 1 - |r|..] && AllZeros(s[1..][..|s| - 1 - |r|])
    ensures r == s[|s| - |r|..] && AllZeros(s[..|s| - |r|])
  {
    assert s[..|s| - |r|] == [s[0]] + s[1..][..|s| - 1 - |r|];
  }

  /** `trim_end_matches('0')` */
  function TrimEnd(s: string): (r: string)
    ensures |r| <= |s| && r == s[..|r|]
    ensures AllZeros(s[|r|..])
    ensures r == [] || r[|r| - 1] != '0'
  {
    if s != [] && s[|s| - 1] == '0' then
      var r := TrimEnd(s[..|s| - 1]);
      DropTrailingZero(s, r);
      r
    else s
  }

  /** A zero after a run of zeros that follows a kept prefix `r` of
      `s[..|s| - 1]` joins the run. */
  lemma DropTrailingZero(s: string, r: string)
    requires s != [] && s[|s| - 1] == '0' && |r| <= |s| - 1
    requires r == s[..|s| - 1][..|r|] && AllZeros(s[..|s| - 1][|r|..])
    ensures r == s[..|r|] && AllZeros(s[|r|..])
  {
    assert s[|r|..] == s[..|s| - 1][|r|..] + [s[|s| - 1]];
  }

  /** `trim_matches('0')`: zeros removed at both ends. */
  function Trim(s: string): (r: string)
    ensures r == [] <==> AllZeros(s)
  {
    var r := TrimEnd(TrimStart(s));
    assert r == [] ==> AllZeros(s) by {
      if r == [] {
        var t := TrimStart(s);
        assert AllZeros(t[|r|..]);
        assert s == s[..|s| - |t|] + t;
      }
    }
    r
  }

  lemma TrimStartEmpty(s: string)
    ensures TrimStart(s) == [] <==> AllZeros(s)
  {
    var r := TrimStart(s);
    if r == [] {
      assert s[..|s|] == s;
    } else {
      assert r[0] == s[|s| - |r|];
    }
  }

  lemma TrimEndEmpty(s: string)
    ensures TrimEnd(s) == [] <==> AllZeros(s)
  {
  }

  /** A string whose first `k` characters are zeros is `k` zeros and the
      rest. */
  lemma ZerosThenRest(s: string, k: nat)
    requires k <= |s| && AllZeros(s[..k])
    ensures s == Zeros(k) + s[k..]
  {
    ZerosAre(s[..k]);
    assert s == s[..k] + s[k..];
  }

  /** A string whose characters from `k` on are zeros is its first `k`
      characters and `|s| - k` zeros. */
  lemma RestThenZeros(s: string, k: nat)
    requires k <= |s| && AllZeros(s[k..])
    ensures s == s[..k] + Zeros(|s| - k)
  {
    ZerosAre(s[k..]);
    assert s == s[..k] + s[k..];
  }

  /** Extra leading zeros are trimmed away. */
  lemma {:induction false} TrimStartZeros(z: string, s: string)
    requires AllZeros(z)
    ensures TrimStart(z + s) == TrimStart(s)
  {
    if z != [] {
      assert (z + s)[1..] == z[1..] + s;
      TrimStartZeros(z[1..], s);
    } else {
      assert z + s == s;
    }
  }

  /** Extra trailing zeros are trimmed away. */
  lemma {:induction false} TrimEndZeros(s: string, z: string)
    requires AllZeros(z)
    ensures TrimEnd(s + z) == TrimEnd(s)
  {
    if z != [] {
      assert (s + z)[..|s + z| - 1] == s + z[..|z| - 1];
      TrimEndZeros(s, z[..|z| - 1]);
    } else {
      assert s + z == s;
    }
  }

  lemma LongerIsLarger(s: string, t: string)
    requires AllDigits(s) && AllDigits(t) && |s| < |t| && t[0] != '0'
    ensures Val(s) < Val(t)
  {
    ValBound(s);
    ValLowerBound(t);
    Pow10Monotone(|s|, |t| - 1);
  }

  /** Two digit strings without leading zeros that denote the same number
      are the same string. */
  lemma CanonicalUnique(s: string, t: string)
    requires AllDigits(s) && AllDigits(t)
    requires s == [] || s[0] != '0'
    requires t == [] || t[0] != '0'
    requires Val(s) == Val(t)
    ensures s == t
  {
    if |s| < |t| {
      LongerIsLarger(s, t);
    } else if |t| < |s| {
      LongerIsLarger(t, s);
    } else {
      ToDigitsVal(s);
      ToDigitsVal(t);
    }
  }

  /** The number denoted without the leading zeros is the same. */
  lemma ValTrimStart(s: string)
    requires AllDigits(s)
    ensures AllDigits(TrimStart(s)) && Val(TrimStart(s)) == Val(s)
  {
    var r := TrimStart(s);
    assert s == s[..|s| - |r|] + r;
    ValLeadingZeros(s[..|s| - |r|], r);
  }

  /** Digit strings denote the same number exactly when they agree once
      their leading zeros are trimmed. */
  lemma TrimStartIffVal(s: string, t: string)
    requires AllDigits(s) && AllDigits(t)
    ensures TrimStart(s) == TrimStart(t) <==> Val(s) == Val(t)
  {
    ValTrimStart(s);
    ValTrimStart(t);
    if Val(s) == Val(t) {
      CanonicalUnique(TrimStart(s), TrimStart(t));
    }
  }
}
