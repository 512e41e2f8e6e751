/** Rust's `std::cmp::Ordering` and the built-in orderings that lib.rs relies on:
    `usize::cmp`, `char::cmp`, `Ord for str` (lexicographic, by code point)
    and the lexicographic order on a pair `(&str, &str)`. */
module Comparison {

  datatype Ordering = Less | Equal | Greater {
    /** `Ordering::reverse` */
    function Reverse(): Ordering {
      match this
      case Less => Greater
      case Equal => Equal
      case Greater => Less
    }
  }

  function CompareNat(x: nat, y: nat): Ordering {
    if x < y then Less else if x == y then Equal else Greater
  }

  /** The order of two real numbers. */
  function CompareReal(x: real, y: real): Ordering {
    if x < y then Less else if x == y then Equal else Greater
  }

  function CompareChar(c: char, d: char): Ordering {
    if c < d then Less else if c == d then Equal else Greater
  }

  /** Lexicographic order on strings: the first differing character decides,
      and a proper prefix is smaller. */
  function CompareStr(s: string, t: string): Ordering {
    if s == [] then (if t == [] then Equal else Less)
    else if t == [] then Greater
    else if s[0] != t[0] then CompareChar(s[0], t[0])
    else CompareStr(s[1..], t[1..])
  }

  /** Lexicographic order on the pair `(s1, s2)` against `(t1, t2)`. */
  function CompareTuple(s1: string, s2: string, t1: string, t2: string): Ordering {
    var first := CompareStr(s1, t1);
    if first != Equal then first else CompareStr(s2, t2)
  }

  lemma {:induction false} CompareStrReverse(s: string, t: string)
    ensures CompareStr(t, s) == CompareStr(s, t).Reverse()
  {
    if s != [] && t != [] && s[0] == t[0] {
      CompareStrReverse(s[1..], t[1..]);
    }
  }

  lemma {:induction false} CompareStrEqual(s: string, t: string)
    ensures CompareStr(s, t) == Equal <==> s == t
  {
    if s != [] && t != [] && s[0] == t[0] {
      CompareStrEqual(s[1..], t[1..]);
      assert s == [s[0]] + s[1..] && t == [t[0]] + t[1..];
    }
  }

  lemma {:induction false} CompareStrTransitive(s: string, t: string, u: string)
    requires CompareStr(s, t) != Greater && CompareStr(t, u) != Greater
    ensures CompareStr(s, u) != Greater
  {
    if s != [] && t != [] && u != [] && s[0] == t[0] && t[0] == u[0] {
      CompareStrTransitive(s[1..], t[1..], u[1..]);
    }
  }

  /** Once the first `i` characters agree, only the rest decides. */
  lemma {:induction false} CompareStrFrom(s: string, t: string, i: nat)
    requires i <= |s| && i <= |t| && s[..i] == t[..i]
    ensures CompareStr(s, t) == CompareStr(s[i..], t[i..])
  {
    if i > 0 {
      assert s[0] == s[..i][0] == t[..i][0] == t[0];
      assert s[1..][..i - 1] == s[1..i] == s[..i][1..];
      assert t[1..][..i - 1] == t[1..i] == t[..i][1..];
      CompareStrFrom(s[1..], t[1..], i - 1);
      assert s[1..][i - 1..] == s[i..] && t[1..][i - 1..] == t[i..];
    }
  }

  /** Comparing two concatenations whose first parts have equal length is
      comparing the pairs. */
  lemma {:induction false} CompareStrConcat(s1: string, s2: string, t1: string, t2: string)
    requires |s1| == |t1|
    ensures CompareStr(s1 + s2, t1 + t2) == CompareTuple(s1, s2, t1, t2)
  {
    if s1 != [] {
      assert (s1 + s2)[0] == s1[0] && (t1 + t2)[0] == t1[0];
      assert (s1 + s2)[1..] == s1[1..] + s2 && (t1 + t2)[1..] == t1[1..] + t2;
      if s1[0] == t1[0] {
        CompareStrConcat(s1[1..], s2, t1[1..], t2);
      }
    } else {
      assert s1 + s2 == s2 && t1 + t2 == t2;
    }
  }
}
