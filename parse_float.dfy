/**
 * JavaScript's `parseFloat` on an already trimmed string: the value of the
 * longest prefix that is a decimal literal (optional sign, digits with an
 * optional fraction, or a fraction alone, then an optional exponent), or
 * `Infinity` after an optional sign; no such prefix gives NaN. Numbers are
 * exact here: the value is the real number the prefix denotes.
 */
module ParseFloat {
  import opened Wrappers
  import opened JsText

  datatype Number = Finite(value: real) | Infinite(negative: bool)

  /** The end of the run of decimal digits that starts at `i`. */
  function DigitRunEnd(s: string, i: nat): (j: nat)
    requires i <= |s|
    ensures i <= j <= |s|
    ensures forall k :: i <= k < j ==> IsDigit(s[k])
    ensures j < |s| ==> !IsDigit(s[j])
    decreases |s| - i
  {
    if i < |s| && IsDigit(s[i]) then DigitRunEnd(s, i + 1) else i
  }

  function Pow10(e: nat): (r: real)
    ensures r >= 1.0
  {
    if e == 0 then 1.0 else 10.0 * Pow10(e - 1)
  }

  /** `m` times ten to the power `e`. */
  function Scale10(m: real, e: int): real {
    if e >= 0 then m * Pow10(e) else m / Pow10(-e)
  }

  /** The length of the optional sign at the start of `s`. */
  function SignLength(s: string): (n: nat)
    ensures n <= |s|
  {
    if |s| > 0 && (s[0] == '+' || s[0] == '-') then 1 else 0
  }

  /**
   * The exponent written at `k` (`e` or `E`, an optional sign, at least one
   * digit), or 0 when there is none there: an `e` without digits is not
   * part of the literal.
   */
  function ExponentAt(s: string, k: nat): int
    requires k <= |s|
  {
    if k < |s| && (s[k] == 'e' || s[k] == 'E') then
      var signed := k + 1 < |s| && (s[k + 1] == '+' || s[k + 1] == '-');
      var d := if signed then k + 2 else k + 1;
      var e := DigitRunEnd(s, d);
      if e == d then 0
      else if signed && s[k + 1] == '-' then -(DigitsValue(s[d..e]) as int)
      else DigitsValue(s[d..e])
    else 0
  }

  /** What `parseFloat` needs to see at the start to produce a number. */
  predicate StartsNumeric(s: string) {
    var t := s[SignLength(s)..];
    StartsWith(t, "Infinity") || (t != [] && IsDigit(t[0]))
    || (|t| >= 2 && t[0] == '.' && IsDigit(t[1]))
  }

  function Negate(n: Number): Number {
    match n
    case Finite(v) => Finite(-v)
    case Infinite(neg) => Infinite(!neg)
  }

  /** The literal after the sign: a non-negative number, or `None`. */
  function UnsignedPrefix(t: string): (r: Option<Number>)
    ensures r.None? <==> !(StartsWith(t, "Infinity") || (t != [] && IsDigit(t[0]))
                           || (|t| >= 2 && t[0] == '.' && IsDigit(t[1])))
  {
    if StartsWith(t, "Infinity") then Some(Infinite(false))
    else
      var j := DigitRunEnd(t, 0);
      var hasDot := j < |t| && t[j] == '.';
      var k := if hasDot then DigitRunEnd(t, j + 1) else j;
      if j == 0 && (!hasDot || k == j + 1) then None
      else
        var whole := DigitsValue(t[..j]) as real;
        var fraction := if hasDot then DigitsValue(t[j + 1..k]) as real / Pow10(k - (j + 1)) else 0.0;
        Some(Finite(Scale10(whole + fraction, ExponentAt(t, k))))
  }

  /** `parseFloat(s)`, with `None` standing for NaN. */
  function ParseFloatPrefix(s: string): (r: Option<Number>)
    ensures r.None? <==> !StartsNumeric(s)
  {
    var u := UnsignedPrefix(s[SignLength(s)..]);
    if |s| > 0 && s[0] == '-' && u.Some? then Some(Negate(u.value)) else u
  }

  /** The digit run starting at `i` ends at `j` when `s[i..j]` are digits and `s[j]` is not. */
  lemma DigitRunEndAt(s: string, i: nat, j: nat)
    requires i <= j <= |s|
    requires forall k :: i <= k < j ==> IsDigit(s[k])
    requires j < |s| ==> !IsDigit(s[j])
    ensures DigitRunEnd(s, i) == j
  {
  }

  lemma NoExponentAt(s: string, k: nat)
    requires k <= |s|
    requires k < |s| ==> s[k] != 'e' && s[k] != 'E'
    ensures ExponentAt(s, k) == 0
  {
  }

  /** A run of digits followed by text that cannot continue a literal. */
  lemma ParseFloatInteger(ds: string, rest: string)
    requires IsDigits(ds)
    requires rest != [] ==> !IsDigit(rest[0]) && rest[0] != '.' && rest[0] != 'e' && rest[0] != 'E'
    ensures ParseFloatPrefix(ds + rest) == Some(Finite(DigitsValue(ds) as real))
  {
    var s := ds + rest;
    assert SignLength(s) == 0 && s[0..] == s;
    assert !StartsWith(s, "Infinity") by { assert IsDigit(s[0]); }
    DigitRunEndAt(s, 0, |ds|);
    assert s[..|ds|] == ds;
  }

  lemma UnsignedDecimalAt(t: string, j: nat, k: nat)
    requires 0 < j < k <= |t| && t[j] == '.'
    requires !StartsWith(t, "Infinity")
    requires DigitRunEnd(t, 0) == j && DigitRunEnd(t, j + 1) == k
    requires ExponentAt(t, k) == 0
    requires SignLength(t) == 0
    ensures ParseFloatPrefix(t)
         == Some(Finite(DigitsValue(t[..j]) as real + DigitsValue(t[j + 1..k]) as real / Pow10(k - (j + 1))))
  {
    assert t[0..] == t;
  }

  /**
   * Digits up to `j`, a point, more digits up to `k`, and then nothing that
   * could continue the literal.
   */
  lemma ParseFloatDecimal(t: string, j: nat, k: nat)
    requires 0 < j < k <= |t| && t[j] == '.'
    requires forall i :: 0 <= i < j ==> IsDigit(t[i])
    requires forall i :: j < i < k ==> IsDigit(t[i])
    requires k < |t| ==> !IsDigit(t[k]) && t[k] != 'e' && t[k] != 'E'
    ensures ParseFloatPrefix(t)
         == Some(Finite(DigitsValue(t[..j]) as real + DigitsValue(t[j + 1..k]) as real / Pow10(k - (j + 1))))
  {
    assert SignLength(t) == 0;
    assert !StartsWith(t, "Infinity") by { assert IsDigit(t[0]); }
    DigitRunEndAt(t, 0, j);
    DigitRunEndAt(t, j + 1, k);
    NoExponentAt(t, k);
    UnsignedDecimalAt(t, j, k);
  }

  /** A leading minus negates what the rest of the text parses to. */
  lemma ParseFloatMinus(t: string)
    requires t != [] ==> t[0] != '+' && t[0] != '-'
    ensures ParseFloatPrefix("-" + t)
         == (match ParseFloatPrefix(t) case None => None case Some(n) => Some(Negate(n)))
  {
    assert ("-" + t)[1..] == t;
    assert t[0..] == t;
  }

  /** `Infinity` after no sign, whatever follows it. */
  lemma ParseFloatInfinity(rest: string)
    ensures ParseFloatPrefix("Infinity" + rest) == Some(Infinite(false))
  {
    var s := "Infinity" + rest;
    assert SignLength(s) == 0 && s[0..] == s;
    assert s[..8] == "Infinity";
  }

  /**
   * The finite value read from `t` when its integer digits end at `j`, its
   * fraction digits (if a point follows) end at `k`, and the exponent there
   * is `x`.
   */
  lemma FiniteAt(t: string, j: nat, k: nat, x: int, whole: nat, fraction: real)
    requires j <= k <= |t|
    requires SignLength(t) == 0 && !StartsWith(t, "Infinity")
    requires DigitRunEnd(t, 0) == j && whole == DigitsValue(t[..j])
    requires j < |t| && t[j] == '.' ==> DigitRunEnd(t, j + 1) == k && j + 1 <= k
                                        && fraction == DigitsValue(t[j + 1..k]) as real / Pow10(k - (j + 1))
    requires !(j < |t| && t[j] == '.') ==> k == j && fraction == 0.0
    requires j > 0 || k > j + 1
    requires ExponentAt(t, k) == x
    ensures ParseFloatPrefix(t) == Some(Finite(Scale10(whole as real + fraction, x)))
  {
    assert t[0..] == t;
  }

  lemma TrailingPointAt(s: string, j: nat)
    requires 0 < j < |s| && s[j] == '.'
    requires forall i :: 0 <= i < j ==> IsDigit(s[i])
    requires j + 1 < |s| ==> !IsDigit(s[j + 1]) && s[j + 1] != 'e' && s[j + 1] != 'E'
    ensures ParseFloatPrefix(s) == Some(Finite(DigitsValue(s[..j]) as real))
  {
    assert !StartsWith(s, "Infinity") by { assert IsDigit(s[0]); }
    assert DigitRunEnd(s, 0) == j by { DigitRunEndAt(s, 0, j); }
    assert DigitRunEnd(s, j + 1) == j + 1 by { DigitRunEndAt(s, j + 1, j + 1); }
    assert ExponentAt(s, j + 1) == 0 by { NoExponentAt(s, j + 1); }
    assert DigitsValue(s[j + 1..j + 1]) == 0 by { assert s[j + 1..j + 1] == []; }
    FiniteAt(s, j, j + 1, 0, DigitsValue(s[..j]), 0.0);
  }

  /** Digits, a point and nothing that continues the literal: the point adds nothing. */
  lemma ParseFloatTrailingPoint(ds: string, rest: string)
    requires IsDigits(ds)
    requires rest != [] ==> !IsDigit(rest[0]) && rest[0] != 'e' && rest[0] != 'E'
    ensures ParseFloatPrefix(ds + "." + rest) == Some(Finite(DigitsValue(ds) as real))
  {
    var s := ds + "." + rest;
    assert s[..|ds|] == ds;
    TrailingPointAt(s, |ds|);
  }

  lemma LeadingPointAt(s: string, k: nat)
    requires 1 < k <= |s| && s[0] == '.'
    requires forall i :: 1 <= i < k ==> IsDigit(s[i])
    requires k < |s| ==> !IsDigit(s[k]) && s[k] != 'e' && s[k] != 'E'
    ensures ParseFloatPrefix(s) == Some(Finite(DigitsValue(s[1..k]) as real / Pow10(k - 1)))
  {
    assert !StartsWith(s, "Infinity");
    assert DigitRunEnd(s, 0) == 0 by { DigitRunEndAt(s, 0, 0); }
    assert DigitRunEnd(s, 1) == k by { DigitRunEndAt(s, 1, k); }
    assert ExponentAt(s, k) == 0 by { NoExponentAt(s, k); }
    assert DigitsValue(s[..0]) == 0 by { assert s[..0] == []; }
    FiniteAt(s, 0, k, 0, 0, DigitsValue(s[1..k]) as real / Pow10(k - 1));
  }

  /** A point and digits with nothing before them: a fraction below one. */
  lemma ParseFloatLeadingPoint(fs: string, rest: string)
    requires IsDigits(fs)
    requires rest != [] ==> !IsDigit(rest[0]) && rest[0] != 'e' && rest[0] != 'E'
    ensures ParseFloatPrefix("." + fs + rest) == Some(Finite(DigitsValue(fs) as real / Pow10(|fs|)))
  {
    var s := "." + fs + rest;
    var k := 1 + |fs|;
    forall i | 1 <= i < k ensures IsDigit(s[i]) { assert s[i] == fs[i - 1]; }
    assert s[1..k] == fs;
    LeadingPointAt(s, k);
  }

  /** The exponent `e` followed by digits, then nothing more of the literal. */
  lemma ExponentDigits(s: string, k: nat, es: string)
    requires k + 1 + |es| <= |s| && s[k] == 'e' && s[k + 1..k + 1 + |es|] == es
    requires IsDigits(es)
    requires k + 1 + |es| < |s| ==> !IsDigit(s[k + 1 + |es|])
    ensures ExponentAt(s, k) == DigitsValue(es)
  {
    var end := k + 1 + |es|;
    assert s[k + 1] == es[0];
    assert !(s[k + 1] == '+' || s[k + 1] == '-') by { assert IsDigit(es[0]); }
    assert DigitRunEnd(s, k + 1) == end by {
      forall i | k + 1 <= i < end ensures IsDigit(s[i]) {
        assert s[i] == es[i - (k + 1)];
      }
      DigitRunEndAt(s, k + 1, end);
    }
    assert s[k + 1..end] == es;
  }

  /** The exponent `e-` followed by digits, then nothing more of the literal. */
  lemma NegativeExponentDigits(s: string, k: nat, es: string)
    requires k + 2 + |es| <= |s| && s[k] == 'e' && s[k + 1] == '-' && s[k + 2..k + 2 + |es|] == es
    requires IsDigits(es)
    requires k + 2 + |es| < |s| ==> !IsDigit(s[k + 2 + |es|])
    ensures ExponentAt(s, k) == -(DigitsValue(es) as int)
  {
    forall i | k + 2 <= i < k + 2 + |es| ensures IsDigit(s[i]) {
      assert s[i] == es[i - (k + 2)];
    }
    DigitRunEndAt(s, k + 2, k + 2 + |es|);
  }

  lemma ExponentAfterDigits(s: string, j: nat, x: int)
    requires 0 < j < |s| && s[j] == 'e'
    requires forall i :: 0 <= i < j ==> IsDigit(s[i])
    requires ExponentAt(s, j) == x
    ensures ParseFloatPrefix(s) == Some(Finite(Scale10(DigitsValue(s[..j]) as real, x)))
  {
    assert !StartsWith(s, "Infinity") by { assert IsDigit(s[0]); }
    assert DigitRunEnd(s, 0) == j by { DigitRunEndAt(s, 0, j); }
    FiniteAt(s, j, j, x, DigitsValue(s[..j]), 0.0);
  }

  /** Digits, `e`, digits: the integer times a power of ten. */
  lemma ParseFloatExponent(ds: string, es: string, rest: string)
    requires IsDigits(ds) && IsDigits(es)
    requires rest != [] ==> !IsDigit(rest[0])
    ensures ParseFloatPrefix(ds + "e" + es + rest) == Some(Finite(Scale10(DigitsValue(ds) as real, DigitsValue(es))))
  {
    var s := ds + "e" + es + rest;
    var j := |ds|;
    assert ExponentAt(s, j) == DigitsValue(es) by {
      assert s[j + 1..j + 1 + |es|] == es;
      ExponentDigits(s, j, es);
    }
    assert s[..j] == ds;
    forall i | 0 <= i < j ensures IsDigit(s[i]) { assert s[i] == ds[i]; }
    ExponentAfterDigits(s, j, DigitsValue(es));
  }

  /** Digits, `e-`, digits: the integer divided by a power of ten. */
  lemma ParseFloatNegativeExponent(ds: string, es: string, rest: string)
    requires IsDigits(ds) && IsDigits(es)
    requires rest != [] ==> !IsDigit(rest[0])
    ensures ParseFloatPrefix(ds + "e-" + es + rest) == Some(Finite(Scale10(DigitsValue(ds) as real, -(DigitsValue(es) as int))))
  {
    var s := ds + "e-" + es + rest;
    var j := |ds|;
    assert ExponentAt(s, j) == -(DigitsValue(es) as int) by {
      assert s[j + 2..j + 2 + |es|] == es;
      NegativeExponentDigits(s, j, es);
    }
    assert s[..j] == ds;
    forall i | 0 <= i < j ensures IsDigit(s[i]) { assert s[i] == ds[i]; }
    ExponentAfterDigits(s, j, -(DigitsValue(es) as int));
  }

  lemma DigitsValueSingle(c: char)
    ensures DigitsValue([c]) == DigitValue(c)
  {
    assert [c][..0] == [];
  }

  /** A unit after the digits is ignored: `10px` reads as 10. */
  lemma ParseFloatUnitSuffix()
    ensures ParseFloatPrefix("10px") == Some(Finite(10.0))
  {
    ParseFloatInteger("10", "px");
    assert "10" + "px" == "10px";
  }

  /** `1e3` reads as 1000. */
  lemma ParseFloatExponentExample()
    ensures ParseFloatPrefix("1e3") == Some(Finite(1000.0))
  {
    assert "1" + "e" + "3" + [] == "1e3";
    ParseFloatExponent("1", "3", []);
    assert Scale10(DigitsValue("1") as real, DigitsValue("3")) == 1000.0 by {
      DigitsValueSingle('1');
      DigitsValueSingle('3');
      assert Pow10(3) == 1000.0;
    }
  }

  /** `2e-2` reads as 0.02. */
  lemma ParseFloatNegativeExponentExample()
    ensures ParseFloatPrefix("2e-2") == Some(Finite(0.02))
  {
    assert "2" + "e-" + "2" + [] == "2e-2";
    ParseFloatNegativeExponent("2", "2", []);
    assert Scale10(DigitsValue("2") as real, -(DigitsValue("2") as int)) == 0.02 by {
      DigitsValueSingle('2');
      assert Pow10(2) == 100.0;
      assert Scale10(2.0, -2) == 2.0 / 100.0;
    }
  }

  /** `.5` reads as 0.5. */
  lemma ParseFloatLeadingPointExample()
    ensures ParseFloatPrefix(".5") == Some(Finite(0.5))
  {
    ParseFloatLeadingPoint("5", []);
    assert DigitsValue("5") == 5 by { DigitsValueSingle('5'); }
    assert |"5"| == 1;
    assert Pow10(1) == 10.0;
    assert 5 as real / 10.0 == 0.5;
    assert "." + "5" + [] == ".5";
  }

  /** `5.` reads as 5. */
  lemma ParseFloatTrailingPointExample()
    ensures ParseFloatPrefix("5.") == Some(Finite(5.0))
  {
    ParseFloatTrailingPoint("5", []);
    assert DigitsValue("5") == 5 by { DigitsValueSingle('5'); }
    assert "5" + "." + [] == "5.";
  }

  /** `0.15` reads as 0.15. */
  lemma ParseFloatDecimalExample()
    ensures ParseFloatPrefix("0.15") == Some(Finite(0.15))
  {
    ParseFloatDecimal("0.15", 1, 4);
    var whole := DigitsValue("0.15"[..1]);
    var fraction := DigitsValue("0.15"[2..4]);
    assert whole == 0 by {
      assert "0.15"[..1] == "0";
      DigitsValueSingle('0');
    }
    assert fraction == 15 by {
      assert "0.15"[2..4] == "15" && "15"[..1] == "1";
      DigitsValueSingle('1');
    }
    assert Pow10(4 - 2) == 100.0;
    assert whole as real + fraction as real / 100.0 == 0.15;
  }

  /** `Infinity` is read even with text after it. */
  lemma ParseFloatInfinityExample()
    ensures ParseFloatPrefix("Infinityx") == Some(Infinite(false))
  {
    ParseFloatInfinity("x");
    assert "Infinity" + "x" == "Infinityx";
  }

  /** `-Infinity` reads as negative infinity. */
  lemma ParseFloatMinusInfinityExample()
    ensures ParseFloatPrefix("-Infinity") == Some(Infinite(true))
  {
    ParseFloatInfinity([]);
    ParseFloatMinus("Infinity");
    assert "Infinity" + [] == "Infinity";
  }
}
