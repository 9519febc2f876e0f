/**
 * The numeric strings `formatSI` in src/units.ts accepts: the anchored
 * pattern `^[-+]?(\d+(\.\d*)?|\.\d+)([eE][-+]?\d+)?$`, read as a numeral
 * with a sign, whole digits, an optional point, fraction digits and an
 * optional exponent, and the real number `Number(...)` gives it.
 */
module Numerals {

  import opened Wrappers
  import opened Chars

  /** `[-+]?`: no sign, `+` or `-`. */
  datatype SignMark = Unsigned | Plus | Minus

  /** `[eE][-+]?\d+`. */
  datatype Exponent = Exponent(marker: char, sign: SignMark, digits: string)

  /** The parts of a numeral: `[-+]?`, `\d*`, `\.?`, `\d*` and the exponent. */
  datatype Numeral = Numeral(sign: SignMark, whole: string, point: bool, fraction: string,
                             exponent: Option<Exponent>)

  predicate AllDigits(s: string) {
    forall i :: 0 <= i < |s| ==> IsDigit(s[i])
  }

  /**
   * The pattern's constraints on the parts: `\d+(\.\d*)?` (whole digits,
   * then an optional point with any fraction) or `\.\d+` (a point and at
   * least one fraction digit), and an exponent with at least one digit.
   */
  predicate WellFormed(n: Numeral) {
    && AllDigits(n.whole) && AllDigits(n.fraction)
    && (if n.whole != [] then n.point || n.fraction == [] else n.point && n.fraction != [])
    && (n.exponent.Some? ==>
          && (n.exponent.value.marker == 'e' || n.exponent.value.marker == 'E')
          && n.exponent.value.digits != [] && AllDigits(n.exponent.value.digits))
  }

  function SignText(s: SignMark): string {
    match s
    case Unsigned => ""
    case Plus => "+"
    case Minus => "-"
  }

  function ExponentText(e: Option<Exponent>): string {
    match e
    case None => ""
    case Some(x) => [x.marker] + SignText(x.sign) + x.digits
  }

  /** The numeral written out. */
  function Text(n: Numeral): string {
    SignText(n.sign) + n.whole + (if n.point then "." else "") + n.fraction + ExponentText(n.exponent)
  }

  /** `[-+]?` at the front of `s`, and what follows it. */
  function ReadSign(s: string): (SignMark, string) {
    if s != [] && s[0] == '-' then (Minus, s[1..])
    else if s != [] && s[0] == '+' then (Plus, s[1..])
    else (Unsigned, s)
  }

  /** `([eE][-+]?\d+)?$`: no exponent when nothing is left, `None` when the rest does not fit. */
  function ParseExponent(r: string): Option<Option<Exponent>> {
    if r == [] then Some(None)
    else if r[0] != 'e' && r[0] != 'E' then None
    else
      var (sign, digits) := ReadSign(r[1..]);
      if digits != [] && LeadingRun(IsDigit, digits) == |digits| then Some(Some(Exponent(r[0], sign, digits)))
      else None
  }

  /** `(\.\d*)?` then the exponent and the end: the point, the fraction digits and the exponent, if they fit. */
  function ParseTail(r1: string): Option<(bool, string, Option<Exponent>)> {
    var point := r1 != [] && r1[0] == '.';
    var r2 := if point then r1[1..] else r1;
    var f := LeadingRun(IsDigit, r2);
    match ParseExponent(r2[f..])
    case None => None
    case Some(e) => Some((point, r2[..f], e))
  }

  /** The whole pattern, anchored at both ends: the numeral `s` spells, if any. */
  function Parse(s: string): Option<Numeral> {
    var (sign, r) := ReadSign(s);
    var w := LeadingRun(IsDigit, r);
    match ParseTail(r[w..])
    case None => None
    case Some((point, fraction, e)) =>
      if w == 0 && (!point || fraction == []) then None
      else Some(Numeral(sign, r[..w], point, fraction, e))
  }

  /** `numberPattern.test(s)`. */
  predicate Matches(s: string) {
    Parse(s).Some?
  }

  // ---------------------------------------------------------------
  // The parser reads exactly the written numerals
  // ---------------------------------------------------------------

  lemma ReadSignOf(m: SignMark, rest: string)
    requires rest == [] || (rest[0] != '-' && rest[0] != '+')
    ensures ReadSign(SignText(m) + rest) == (m, rest)
  {
    match m
    case Unsigned => assert SignText(m) + rest == rest;
    case Plus => assert (SignText(m) + rest)[1..] == rest;
    case Minus => assert (SignText(m) + rest)[1..] == rest;
  }

  lemma ReadSignSound(s: string)
    ensures SignText(ReadSign(s).0) + ReadSign(s).1 == s
  {
    if s != [] && (s[0] == '-' || s[0] == '+') {
      assert s == [s[0]] + s[1..];
    }
  }

  lemma DigitsRun(s: string, rest: string)
    requires AllDigits(s) && (rest == [] || !IsDigit(rest[0]))
    ensures LeadingRun(IsDigit, s + rest) == |s|
  {
    LeadingRunOfConcat(IsDigit, s, rest);
  }

  lemma ParseExponentComplete(e: Option<Exponent>)
    requires e.Some? ==>
      && (e.value.marker == 'e' || e.value.marker == 'E')
      && e.value.digits != [] && AllDigits(e.value.digits)
    ensures ParseExponent(ExponentText(e)) == Some(e)
  {
    if e.Some? {
      var x := e.value;
      var r := ExponentText(e);
      assert r == [x.marker] + (SignText(x.sign) + x.digits);
      assert r[1..] == SignText(x.sign) + x.digits;
      assert !IsDigit('-') && !IsDigit('+');
      ReadSignOf(x.sign, x.digits);
      assert x.digits + [] == x.digits;
      DigitsRun(x.digits, []);
    }
  }

  lemma {:induction false} ParseExponentSound(r: string)
    requires ParseExponent(r).Some?
    ensures var e := ParseExponent(r).value;
      && ExponentText(e) == r
      && (e.Some? ==> (e.value.marker == 'e' || e.value.marker == 'E')
                      && e.value.digits != [] && AllDigits(e.value.digits))
  {
    if r != [] {
      var rest := r[1..];
      ReadSignSound(rest);
      var (sign, digits) := ReadSign(rest);
      LeadingRunStops(IsDigit, digits);
      var x := Exponent(r[0], sign, digits);
      assert ParseExponent(r) == Some(Some(x));
      assert ExponentText(Some(x)) == [r[0]] + (SignText(sign) + digits);
      assert r == [r[0]] + rest;
    }
  }

  /** The text after the sign: `whole`, then the point and fraction, then the exponent. */
  function Body(n: Numeral): string {
    n.whole + ((if n.point then "." else "") + (n.fraction + ExponentText(n.exponent)))
  }

  lemma TextIsSignAndBody(n: Numeral)
    ensures Text(n) == SignText(n.sign) + Body(n)
  {
  }

  /** The point, fraction and exponent are read back as written. */
  lemma {:induction false} TailComplete(point: bool, fraction: string, e: Option<Exponent>)
    requires AllDigits(fraction)
    requires e.Some? ==>
      && (e.value.marker == 'e' || e.value.marker == 'E')
      && e.value.digits != [] && AllDigits(e.value.digits)
    ensures ParseTail((if point then "." else "") + (fraction + ExponentText(e))) == Some((point, fraction, e))
  {
    var et := ExponentText(e);
    var tail := fraction + et;
    var r1 := (if point then "." else "") + tail;
    assert et == [] || !IsDigit(et[0]);
    DigitsRun(fraction, et);
    if point {
      assert r1[1..] == tail;
    } else {
      assert r1 == tail;
      assert r1 == [] || r1[0] != '.' by {
        if fraction == [] {
          assert r1 == et;
        } else {
          assert r1[0] == fraction[0];
        }
      }
    }
    assert (r1 != [] && r1[0] == '.') == point;
    assert tail[..|fraction|] == fraction && tail[|fraction|..] == et;
    ParseExponentComplete(e);
  }

  /** A well-formed numeral is read back as itself. */
  lemma {:induction false} ParseText(n: Numeral)
    requires WellFormed(n)
    ensures Parse(Text(n)) == Some(n)
  {
    var r1 := (if n.point then "." else "") + (n.fraction + ExponentText(n.exponent));
    var r := n.whole + r1;
    TextIsSignAndBody(n);
    assert Body(n) == r;
    TailComplete(n.point, n.fraction, n.exponent);
    assert r1 == [] || !IsDigit(r1[0]) by {
      if !n.point && n.fraction == [] {
        assert r1 == ExponentText(n.exponent);
      }
    }
    assert r == [] || (r[0] != '-' && r[0] != '+') by {
      if n.whole != [] {
        assert r[0] == n.whole[0];
      }
    }
    ReadSignOf(n.sign, r);
    DigitsRun(n.whole, r1);
    assert r[|n.whole|..] == r1 && r[..|n.whole|] == n.whole;
  }

  /** What the tail accepts is digits and an exponent, written out after the optional point. */
  lemma {:induction false} TailSound(r1: string)
    requires ParseTail(r1).Some?
    ensures var (point, fraction, e) := ParseTail(r1).value;
      && AllDigits(fraction) && r1 == (if point then "." else "") + (fraction + ExponentText(e))
      && (e.Some? ==> (e.value.marker == 'e' || e.value.marker == 'E')
                      && e.value.digits != [] && AllDigits(e.value.digits))
      && (!point && fraction != [] ==> IsDigit(r1[0]))
  {
    var point := r1 != [] && r1[0] == '.';
    var r2 := if point then r1[1..] else r1;
    var f := LeadingRun(IsDigit, r2);
    LeadingRunStops(IsDigit, r2);
    ParseExponentSound(r2[f..]);
    CutBefore(r2, f);
    if point {
      assert r1 == ['.'] + r2;
    }
  }

  /** Whatever the parser accepts is a well-formed numeral written out. */
  lemma {:induction false} ParseSound(s: string)
    requires Parse(s).Some?
    ensures WellFormed(Parse(s).value) && Text(Parse(s).value) == s
  {
    var n := Parse(s).value;
    var (sign, r) := ReadSign(s);
    ReadSignSound(s);
    var w := LeadingRun(IsDigit, r);
    LeadingRunStops(IsDigit, r);
    TailSound(r[w..]);
    CutBefore(r, w);
    assert Body(n) == r;
    TextIsSignAndBody(n);
  }

  /** The validator's language, both ways: exactly the well-formed numerals, written out. */
  lemma ParseIff(s: string, n: Numeral)
    ensures Parse(s) == Some(n) <==> WellFormed(n) && Text(n) == s
  {
    if Parse(s) == Some(n) {
      ParseSound(s);
    }
    if WellFormed(n) && Text(n) == s {
      ParseText(n);
    }
  }

  // ---------------------------------------------------------------
  // What `Number(...)` makes of a numeral
  // ---------------------------------------------------------------

  function DigitValue(c: char): nat
    requires IsDigit(c)
  {
    c as int - '0' as int
  }

  /** The decimal value of a digit string, most significant digit first. */
  function DigitsValue(s: string): nat
    requires AllDigits(s)
  {
    if s == [] then 0 else DigitsValue(s[..|s| - 1]) * 10 + DigitValue(s[|s| - 1])
  }

  function Pow10(k: nat): (p: nat)
    ensures p >= 1
  {
    if k == 0 then 1 else 10 * Pow10(k - 1)
  }

  /** `10^e` for an integer exponent. */
  function Scale(e: int): (r: real)
    ensures r > 0.0
  {
    if e >= 0 then Pow10(e) as real else 1.0 / Pow10(-e) as real
  }

  function ExponentValue(e: Option<Exponent>): int
    requires e.Some? ==> AllDigits(e.value.digits)
  {
    match e
    case None => 0
    case Some(x) => if x.sign == Minus then -(DigitsValue(x.digits) as int) else DigitsValue(x.digits)
  }

  /** A digit string read with `places` fraction digits, times `10^exponent`. */
  function Magnitude(digits: string, places: nat, exponent: int): real
    requires AllDigits(digits)
  {
    (DigitsValue(digits) as real / Pow10(places) as real) * Scale(exponent)
  }

  /** The whole and fraction digits of a well-formed numeral, side by side, are digits. */
  lemma MantissaDigits(n: Numeral)
    requires WellFormed(n)
    ensures AllDigits(n.whole + n.fraction)
  {
    var m := n.whole + n.fraction;
    assert forall i :: |n.whole| <= i < |m| ==> m[i] == n.fraction[i - |n.whole|];
  }

  /** `Number(Text(n))`: the sign applied to the digits over the fraction's place value, times the exponent's power of ten. */
  function Value(n: Numeral): real
    requires WellFormed(n)
  {
    MantissaDigits(n);
    var m := Magnitude(n.whole + n.fraction, |n.fraction|, ExponentValue(n.exponent));
    if n.sign == Minus then -m else m
  }

  /** A digit string is worth nothing exactly when every digit is `0`. */
  lemma {:induction false} DigitsValueZero(s: string)
    requires AllDigits(s)
    ensures DigitsValue(s) == 0 <==> forall i :: 0 <= i < |s| ==> s[i] == '0'
  {
    if s != [] {
      var init := s[..|s| - 1];
      DigitsValueZero(init);
      assert forall i :: 0 <= i < |init| ==> init[i] == s[i];
    }
  }

  /** A numeral is zero exactly when all its mantissa digits are `0`, whatever its sign and exponent. */
  lemma {:induction false} ValueZero(n: Numeral)
    requires WellFormed(n)
    ensures Value(n) == 0.0 <==> forall i :: 0 <= i < |n.whole + n.fraction| ==> (n.whole + n.fraction)[i] == '0'
  {
    var m := n.whole + n.fraction;
    MantissaDigits(n);
    DigitsValueZero(m);
    var d := DigitsValue(m) as real;
    var q := Pow10(|n.fraction|) as real;
    var sc := Scale(ExponentValue(n.exponent));
    if d != 0.0 {
      assert d / q > 0.0;
      assert (d / q) * sc > 0.0;
    }
  }

  /** A minus sign negates the value, a plus sign changes nothing. */
  lemma {:induction false} SignOfValue(n: Numeral)
    requires WellFormed(n)
    ensures Value(n.(sign := Minus)) == -Value(n.(sign := Unsigned))
    ensures Value(n.(sign := Plus)) == Value(n.(sign := Unsigned))
    ensures Value(n.(sign := Unsigned)) >= 0.0
  {
    MantissaDigits(n);
    MagnitudeNonNegative(n.whole + n.fraction, |n.fraction|, ExponentValue(n.exponent));
  }

  lemma MagnitudeNonNegative(digits: string, places: nat, exponent: int)
    requires AllDigits(digits)
    ensures Magnitude(digits, places, exponent) >= 0.0
  {
    var d := DigitsValue(digits) as real;
    var q := Pow10(places) as real;
    assert d / q >= 0.0;
    assert (d / q) * Scale(exponent) >= 0.0;
  }
}
