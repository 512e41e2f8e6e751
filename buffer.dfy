/** The digit-buffer helpers of lib.rs: zero-padding to a target length
    (`pad`) and zero-trimming of computed results (`trim_zeros`). */
module Buffer {
  import opened Digits
  import opened Arith

  /** `s` with `'0'`s added on the left up to `n` digits. */
  function PadLeft(s: string, n: nat): string {
    if |s| >= n then s else Zeros(n - |s|) + s
  }

  /** `s` with `'0'`s added on the right up to `n` digits. */
  function PadRight(s: string, n: nat): string {
    if |s| >= n then s else s + Zeros(n - |s|)
  }

  /** `pad(&mut s, target_len, left)`: pads `s` with `'0'`s on the left
      (integer digits) or on the right (fraction digits) up to `targetLen`;
      a string already that long is left as it is.  The Rust function updates
      its `&mut String` argument; here the updated string is returned. */
  method Pad(s: string, targetLen: nat, left: bool) returns (padded: string)
    ensures padded == if left then PadLeft(s, targetLen) else PadRight(s, targetLen)
  {
    var missing := if targetLen > |s| then targetLen - |s| else 0;  // saturating_sub
    if missing == 0 {
      padded := s;
      return;
    }
    var zeros := Zeros(missing);
    if left {
      padded := zeros + s;
    } else {
      padded := s + zeros;
    }
  }

  /** Padding gives digits of the target length. */
  lemma PadDigits(s: string, n: nat)
    requires AllDigits(s)
    ensures AllDigits(PadLeft(s, n)) && |PadLeft(s, n)| == (if |s| >= n then |s| else n)
    ensures AllDigits(PadRight(s, n)) && |PadRight(s, n)| == (if |s| >= n then |s| else n)
  {
    if |s| < n {
      DigitsConcat(Zeros(n - |s|), s);
      DigitsConcat(s, Zeros(n - |s|));
    }
  }

  /** Padding keeps `s` at the padded end, adds only zeros, reaches
      `targetLen` digits, and leaves a number with the same value on the
      left (integer digits) and scaled by the added places on the right
      (fraction digits). */
  lemma PadLeftKeeps(s: string, n: nat)
    ensures var p := PadLeft(s, n);
      && |p| == (if |s| >= n then |s| else n)
      && p[|p| - |s|..] == s && AllZeros(p[..|p| - |s|])
      && (AllDigits(s) ==> AllDigits(p) && Val(p) == Val(s))
  {
    var p := PadLeft(s, n);
    assert p[..|p| - |s|] == Zeros(|p| - |s|) && p[|p| - |s|..] == s;
    if AllDigits(s) {
      ValLeadingZeros(Zeros(|p| - |s|), s);
    }
  }

  lemma PadRightKeeps(s: string, n: nat)
    ensures var p := PadRight(s, n);
      && |p| == (if |s| >= n then |s| else n)
      && p[..|s|] == s && AllZeros(p[|s|..])
      && (AllDigits(s) ==> AllDigits(p) && Val(p) == Val(s) * Pow10(|p| - |s|))
  {
    var p := PadRight(s, n);
    assert p[..|s|] == s && p[|s|..] == Zeros(|p| - |s|);
    if AllDigits(s) {
      ValTrailingZeros(s, Zeros(|p| - |s|));
    }
  }

  /** `trim_zeros(s, leading)`: removes the leading (or, when `leading` is
      false, the trailing) zeros, and yields `"0"` when nothing is left. */
  function TrimZeros(s: string, leading: bool): (r: string)
    ensures r != []
    ensures r == "0" <==> AllZeros(s)
    ensures !AllZeros(s) ==> |r| <= |s|
    ensures !AllZeros(s) && leading ==> r[0] != '0' && s == Zeros(|s| - |r|) + r
    ensures !AllZeros(s) && !leading ==> r[|r| - 1] != '0' && s == r + Zeros(|s| - |r|)
  {
    var t := if leading then TrimStart(s) else TrimEnd(s);
    if t == [] then
      TrimStartEmpty(s);
      TrimEndEmpty(s);
      "0"
    else if leading then
      TrimStartEmpty(s);
      ZerosThenRest(s, |s| - |t|);
      t
    else
      TrimEndEmpty(s);
      RestThenZeros(s, |t|);
      t
  }

  /** The trimmed integer digits denote the same number. */
  lemma ValTrimLeading(s: string)
    requires AllDigits(s)
    ensures AllDigits(TrimZeros(s, true)) && Val(TrimZeros(s, true)) == Val(s)
  {
    var r := TrimZeros(s, true);
    if AllZeros(s) {
      ValZeros(s);
      ValZeros("0");
    } else {
      var z := Zeros(|s| - |r|);
      assert s == z + r;
      ValLeadingZeros(z, r);
    }
  }

  /** The trimmed digits agree with the untrimmed ones under Rust's
      `trim_start_matches('0')` / `trim_end_matches('0')`. */
  lemma TrimZerosTrims(s: string)
    ensures TrimStart(TrimZeros(s, true)) == TrimStart(s)
    ensures TrimEnd(TrimZeros(s, false)) == TrimEnd(s)
  {
    if AllZeros(s) {
      TrimStartEmpty(s);
      TrimEndEmpty(s);
      assert TrimStart("0") == TrimStart([]);
      assert TrimEnd("0") == TrimEnd("0"[..0]);
    } else {
      TrimStartZeros(Zeros(|s| - |TrimZeros(s, true)|), TrimZeros(s, true));
      TrimEndZeros(TrimZeros(s, false), Zeros(|s| - |TrimZeros(s, false)|));
    }
  }

  /** The trimmed fraction digits denote the same fraction: cross-multiplied
      by the two scales `10^|s|` and `10^|r|` the numbers agree. */
  lemma ValTrimTrailing(s: string)
    requires AllDigits(s)
    ensures var r := TrimZeros(s, false);
      AllDigits(r) && Val(s) * Pow10(|r|) == Val(r) * Pow10(|s|)
  {
    var r := TrimZeros(s, false);
    if AllZeros(s) {
      ValZeros(s);
      ValZeros("0");
    } else {
      var z := Zeros(|s| - |r|);
      assert s == r + z;
      assert AllDigits(r) by {
        forall i | 0 <= i < |r| ensures IsDigit(r[i]) { assert r[i] == s[i]; }
      }
      ValTrailingZeros(r, z);
      Pow10Add(|r|, |z|);
      assert |s| == |r| + |z|;
      CrossScale(Val(r), Pow10(|r|), Val(r), Pow10(|z|), Val(s), Pow10(|s|));
    }
  }
}
