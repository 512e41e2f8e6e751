/** The `Decimal` value: a sign flag and two digit strings, the integer part
    and the fraction part, both kept exactly as written.  This module holds
    the parser (`Decimal::new`, `Decimal::try_from`), the formatter
    (`Display`), the predicates `is_empty` and `is_zero`, and the number a
    value denotes. */
module Decimals {
  import opened Digits
  import opened Arith

  datatype Decimal = Decimal(intPart: string, fracPart: string, isPositive: bool) {
    /** Every value the parser or an arithmetic operation produces has only
        ASCII digits in both parts. */
    predicate Valid() {
      AllDigits(intPart) && AllDigits(fracPart)
    }
  }

  datatype ParseDecimalError = Empty | InvalidDigit

  datatype Result<T, E> = Ok(value: T) | Err(error: E)

  datatype Option<T> = None | Some(value: T)

  /** The magnitude `intPart.fracPart` as a real number: the integer digits'
      number plus the fraction digits' number over `10^|fracPart|`. */
  function Magnitude(d: Decimal): real
    requires d.Valid()
  {
    Val(d.intPart) as real + Val(d.fracPart) as real / Pow10(|d.fracPart|) as real
  }

  /** The magnitude scaled by `10^F` as a whole number: the integer digits
      followed by the fraction digits padded with zeros to `F` places. */
  function Scaled(d: Decimal, F: nat): nat
    requires d.Valid() && |d.fracPart| <= F
  {
    Val(d.intPart) * Pow10(F) + Val(d.fracPart) * Pow10(F - |d.fracPart|)
  }

  function SignedValue(d: Decimal): real
    requires d.Valid()
  {
    if d.isPositive then Magnitude(d) else -Magnitude(d)
  }

  /** `fmt::Display`: `[-]int.frac`, the `.` always written.  The text is
      one character longer than the digits, two when negative; a negative
      value starts with `-`, and the fraction digits end the text right
      after a `.`. */
  function Display(d: Decimal): (s: string)
    ensures |s| == (if d.isPositive then 1 else 2) + |d.intPart| + |d.fracPart|
    ensures !d.isPositive ==> s[0] == '-'
    ensures s[|s| - |d.fracPart| - 1] == '.' && s[|s| - |d.fracPart|..] == d.fracPart
  {
    (if d.isPositive then "" else "-") + d.intPart + "." + d.fracPart
  }

  /** The sign step of `Decimal::new`: one leading `-` or `+` is removed.
      What is left is the text or the text without its first character,
      the latter exactly when that character is a sign, and the value is
      negative exactly when it is a `-`. */
  function StripSign(text: string): (r: (bool, string))
    ensures |text| - 1 <= |r.1| <= |text| && r.1 == text[|text| - |r.1|..]
    ensures |r.1| < |text| <==> text != [] && (text[0] == '-' || text[0] == '+')
    ensures !r.0 <==> text != [] && text[0] == '-'
  {
    if text != [] && text[0] == '-' then (false, text[1..])
    else if text != [] && text[0] == '+' then (true, text[1..])
    else (true, text)
  }

  /** `str::split_once`: the parts before and after the first `sep`, or the
      whole string and `""` when there is none. */
  function SplitOnce(s: string, sep: char): (parts: (string, string))
    ensures sep !in s ==> parts == (s, [])
    ensures sep in s ==> s == parts.0 + [sep] + parts.1 && sep !in parts.0
  {
    if sep !in s then (s, [])
    else if s[0] == sep then ([], s[1..])
    else
      var rest := SplitOnce(s[1..], sep);
      assert s == [s[0]] + s[1..];
      ([s[0]] + rest.0, rest.1)
  }

  /** `Decimal::new` */
  function Parse(text: string): (r: Result<Decimal, ParseDecimalError>)
    ensures r == Err(Empty) <==> text == []
    ensures r.Ok? ==> r.value.Valid()
    ensures r.Ok? ==> text != [] && (r.value.isPositive <==> text[0] != '-')
  {
    if text == [] then Err(Empty)
    else
      var (isPositive, numstr) := StripSign(text);
      var (intSeg, fracSeg) := SplitOnce(numstr, '.');
      if !AllDigits(intSeg) || !AllDigits(fracSeg) then Err(InvalidDigit)
      else Ok(Decimal(intSeg, fracSeg, isPositive))
  }

  /** `Decimal::try_from`: the parse result with the error discarded. */
  function TryFrom(text: string): (r: Option<Decimal>)
    ensures r.Some? <==> Parse(text).Ok?
    ensures r.Some? ==> r.value.Valid() && Parse(text) == Ok(r.value)
  {
    match Parse(text)
    case Ok(d) => Some(d)
    case Err(_) => None
  }

  /** `is_empty`: both digit strings are empty, so the value prints as a
      bare `.` or `-.`; an empty value is a zero. */
  predicate IsEmpty(d: Decimal)
    ensures IsEmpty(d) <==> Display(d) == (if d.isPositive then "." else "-.")
    ensures IsEmpty(d) ==> IsZero(d)
  {
    d.intPart == [] && d.fracPart == []
  }

  /** `is_zero`: both digit strings are empty once `'0'`s are trimmed from
      both ends, which holds exactly when both are all zeros. */
  predicate IsZero(d: Decimal)
    ensures IsZero(d) <==> AllZeros(d.intPart) && AllZeros(d.fracPart)
  {
    Trim(d.intPart) == [] && Trim(d.fracPart) == []
  }

  /** The text the parser accepts once the sign is removed: digits, with at
      most one `.` among them. */
  predicate DecimalSyntax(s: string) {
    && (forall i :: 0 <= i < |s| ==> IsDigit(s[i]) || s[i] == '.')
    && (forall i, j :: 0 <= i < j < |s| && s[i] == '.' ==> s[j] != '.')
  }

  /** Digits, one `.` and digits make a well-formed unsigned rest. */
  lemma PointSyntax(numstr: string, intSeg: string, fracSeg: string)
    requires numstr == intSeg + ['.'] + fracSeg && '.' !in intSeg
    requires AllDigits(intSeg) && AllDigits(fracSeg)
    ensures DecimalSyntax(numstr)
  {
    var k := |intSeg|;
    assert forall i :: 0 <= i < k ==> numstr[i] == intSeg[i];
    assert numstr[k] == '.';
    assert forall i :: k < i < |numstr| ==> numstr[i] == fracSeg[i - k - 1];
  }

  /** A well-formed unsigned rest split at its `.` is two digit strings. */
  lemma PointSegments(numstr: string, intSeg: string, fracSeg: string)
    requires numstr == intSeg + ['.'] + fracSeg && DecimalSyntax(numstr)
    ensures AllDigits(intSeg) && AllDigits(fracSeg)
  {
    var k := |intSeg|;
    assert numstr[k] == '.';
    forall i | 0 <= i < |intSeg| ensures IsDigit(intSeg[i]) {
      assert intSeg[i] == numstr[i];
    }
    forall i | 0 <= i < |fracSeg| ensures IsDigit(fracSeg[i]) {
      assert fracSeg[i] == numstr[k + 1 + i];
    }
  }

  /** With a `.` in it, the unsigned rest splits into two digit strings
      exactly when it is digits with that one `.`. */
  lemma SyntaxWithPoint(numstr: string)
    requires '.' in numstr
    ensures AllDigits(SplitOnce(numstr, '.').0) && AllDigits(SplitOnce(numstr, '.').1) <==> DecimalSyntax(numstr)
  {
    var parts := SplitOnce(numstr, '.');
    if AllDigits(parts.0) && AllDigits(parts.1) {
      PointSyntax(numstr, parts.0, parts.1);
    }
    if DecimalSyntax(numstr) {
      PointSegments(numstr, parts.0, parts.1);
    }
  }

  /** Without a `.`, the unsigned rest is accepted exactly when it is all
      digits. */
  lemma SyntaxWithoutPoint(numstr: string)
    requires '.' !in numstr
    ensures AllDigits(SplitOnce(numstr, '.').0) && AllDigits(SplitOnce(numstr, '.').1) <==> DecimalSyntax(numstr)
  {
    var intSeg := SplitOnce(numstr, '.').0;
    assert intSeg == numstr;
    if DecimalSyntax(numstr) {
      forall i | 0 <= i < |intSeg| ensures IsDigit(intSeg[i]) { assert intSeg[i] in numstr; }
    }
  }

  /** `Decimal::new` fails with `Empty` exactly on the empty text, succeeds
      exactly when the unsigned rest is digits with at most one `.`, and
      fails with `InvalidDigit` otherwise. */
  lemma ParseAccepts(text: string)
    ensures Parse(text).Ok? <==> text != [] && DecimalSyntax(StripSign(text).1)
    ensures Parse(text) == Err(InvalidDigit) <==> text != [] && !DecimalSyntax(StripSign(text).1)
  {
    if text != [] {
      var numstr := StripSign(text).1;
      if '.' in numstr {
        SyntaxWithPoint(numstr);
      } else {
        SyntaxWithoutPoint(numstr);
      }
    }
  }

  /** On success the two segments are stored verbatim: after the sign, the
      text is the integer digits, then (when the text has a `.`) the `.` and
      the fraction digits. */
  lemma ParseFields(text: string)
    requires Parse(text).Ok?
    ensures var d, rest := Parse(text).value, StripSign(text).1;
      && (text[0] == '-' || text[0] == '+' ==> rest == text[1..])
      && (text[0] != '-' && text[0] != '+' ==> rest == text)
      && ('.' in rest ==> rest == d.intPart + "." + d.fracPart)
      && ('.' !in rest ==> rest == d.intPart && d.fracPart == [])
  {
  }

  /** `"-"`, `"+"` and `"."` are accepted, with both fields empty. */
  lemma ParseBareSignOrPoint()
    ensures Parse("-") == Ok(Decimal("", "", false))
    ensures Parse("+") == Ok(Decimal("", "", true))
    ensures Parse(".") == Ok(Decimal("", "", true))
  {
    assert StripSign("-").1 == [];
    assert StripSign("+").1 == [];
    assert SplitOnce(".", '.') == ([], []);
  }

  /** `is_empty` holds of a parsed value exactly when the unsigned text is
      empty or a lone `.`. */
  lemma ParseIsEmpty(text: string)
    requires Parse(text).Ok?
    ensures IsEmpty(Parse(text).value) <==> StripSign(text).1 in {"", "."}
  {
    var d, rest := Parse(text).value, StripSign(text).1;
    var parts := SplitOnce(rest, '.');
    assert d.intPart == parts.0 && d.fracPart == parts.1;
    if '.' in rest {
      assert |rest| == |d.intPart| + 1 + |d.fracPart|;
      assert rest != "";
      if IsEmpty(d) {
        assert rest == ".";
      }
      if rest == "." {
        assert IsEmpty(d);
      }
    } else {
      assert rest != ".";
      assert rest == d.intPart && d.fracPart == [];
    }
  }

  /** Formatting and re-parsing give back the very same value
      (the round-trip fuzz target). */
  lemma {:induction false} ParseDisplay(d: Decimal)
    requires d.Valid()
    ensures Parse(Display(d)) == Ok(d)
  {
    var text := Display(d);
    var body := d.intPart + "." + d.fracPart;
    assert text == if d.isPositive then body else "-" + body;
    if d.intPart != [] {
      assert text[0] == d.intPart[0] || text[0] == '-';
    }
    assert StripSign(text) == (d.isPositive, body);
    assert '.' !in d.intPart;
    assert body[|d.intPart|] == '.';
    var parts := SplitOnce(body, '.');
    assert body == parts.0 + ['.'] + parts.1;
    SplitUnique(body, d.intPart, d.fracPart, parts.0, parts.1);
  }

  /** The split at the first separator is unique. */
  lemma SplitUnique(s: string, a: string, b: string, c: string, e: string)
    requires s == a + "." + b && '.' !in a
    requires s == c + "." + e && '.' !in c
    ensures a == c && b == e
  {
    SeparatorAt(s, a, b);
    SeparatorAt(s, c, e);
    assert |a| == |c|;
    assert a == s[..|a|] == c;
    assert b == s[|a| + 1..] == e;
  }

  lemma SeparatorAt(s: string, a: string, b: string)
    requires s == a + "." + b && '.' !in a
    ensures s[|a|] == '.' && forall i :: 0 <= i < |a| ==> s[i] != '.'
  {
    forall i | 0 <= i < |a| ensures s[i] != '.' {
      assert s[i] == a[i];
    }
  }

  /** Parsing and formatting give back the text itself when it carries no
      `+` and has a `.`: the parser does not normalise. */
  lemma DisplayParse(text: string)
    requires Parse(text).Ok? && text[0] != '+' && '.' in text
    ensures Display(Parse(text).value) == text
  {
    var sign, rest := StripSign(text).0, StripSign(text).1;
    var prefix := if sign then "" else "-";
    assert text == prefix + rest;
    assert '.' in rest;
    var parts := SplitOnce(rest, '.');
    assert Parse(text).value == Decimal(parts.0, parts.1, sign);
    PrefixConcat(prefix, parts.0, parts.1);
  }

  lemma PrefixConcat(p: string, a: string, b: string)
    ensures p + a + "." + b == p + (a + "." + b)
  {
  }

  /** `is_zero` holds exactly when the value's magnitude is zero. */
  lemma IsZeroIffZero(d: Decimal)
    requires d.Valid()
    ensures IsZero(d) <==> Magnitude(d) == 0.0
  {
    ValZeroIff(d.intPart);
    ValZeroIff(d.fracPart);
    SumOfRatioZero(Val(d.intPart), Val(d.fracPart), Pow10(|d.fracPart|));
  }

  /** A zero with one digit on each side is printed `0.0` or `-0.0`. */
  lemma DisplayZero(isPositive: bool)
    ensures Display(Decimal("0", "0", isPositive)) == if isPositive then "0.0" else "-0.0"
  {
  }

  /** The rule of signs: a value with magnitude `ma * mb`, positive exactly
      when the signs of `a` and `b` agree, has the product `sa * sb` of
      their signed values as its value. */
  lemma SignRule(r: Decimal, a: Decimal, b: Decimal, ma: real, mb: real, sa: real, sb: real)
    requires r.Valid() && a.Valid() && b.Valid()
    requires ma == Magnitude(a) && mb == Magnitude(b) && sa == SignedValue(a) && sb == SignedValue(b)
    requires r.isPositive == (a.isPositive == b.isPositive) && Magnitude(r) == ma * mb
    ensures SignedValue(r) == sa * sb
  {
    SignedProduct(SignedValue(r), sa, sb, Magnitude(r), ma, mb, a.isPositive, b.isPositive);
  }

  /** Scaling by `10^F` loses nothing: the magnitude is the scaled number
      over `10^F`. */
  lemma ScaledMagnitude(d: Decimal, F: nat)
    requires d.Valid() && |d.fracPart| <= F
    ensures Magnitude(d) == Scaled(d, F) as real / Pow10(F) as real
  {
    var k := F - |d.fracPart|;
    Pow10Add(|d.fracPart|, k);
    ScaleRatio(Val(d.intPart), Val(d.fracPart), Pow10(|d.fracPart|), Pow10(k));
  }

  /** Scaled by exactly its own fraction length, a number is the number of
      its digits read as one string. */
  lemma ScaledExact(d: Decimal)
    requires d.Valid()
    ensures Scaled(d, |d.fracPart|) == Val(d.intPart + d.fracPart)
  {
    ValConcat(d.intPart, d.fracPart);
    assert Pow10(0) == 1;
  }
}
