/** `getAmountWei` of utils/number.ts: strip the thousands separators, read
    the text as a decimal number, shift it by `decimals` places (six when
    the caller gives none) and print it rounded to an integer.

    The arbitrary-precision library behind it is modelled by exact integer
    arithmetic: a decimal `[-]whole[.fraction][e[+-]exp]` stands for
    `±Value(whole ++ fraction) * 10^(exp - |fraction|)`, and rounding to an
    integer goes half away from zero, the library's default mode. */
module Amount {
  import opened Wrappers
  import opened Text
  import opened NumberFormat

  /** The default shift, from the parameter default and the `?? 6`. */
  const DefaultDecimals: int := 6

  /** The largest shift the library accepts; a larger one throws, and the
      `catch` turns that into "0". */
  const MaxSafeInteger: int := 9007199254740991

  /** The library's default bound on decimal exponents (`MAX_EXP`, and
      `-MIN_EXP`); values beyond it become infinite or zero. */
  const MaxExponent: int := 1000000000

  // ---------------------------------------------------------------------
  // Digit strings and natural numbers
  // ---------------------------------------------------------------------

  function DigitValue(c: char): (d: nat)
    requires IsDigit(c)
    ensures d < 10
  {
    c as int - '0' as int
  }

  function DigitChar(d: nat): (c: char)
    requires d < 10
    ensures IsDigit(c) && DigitValue(c) == d
  {
    ('0' as int + d) as char
  }

  /** The number a string of decimal digits denotes (most significant first). */
  function Value(s: string): nat
    requires AllDigits(s)
    decreases |s|
  {
    if s == [] then 0 else 10 * Value(s[..|s| - 1]) + DigitValue(s[|s| - 1])
  }

  function Pow10(n: nat): (p: nat)
    ensures p >= 1
  {
    if n == 0 then 1 else 10 * Pow10(n - 1)
  }

  /** Canonical: "0" itself, or no leading zero. */
  predicate Canonical(s: string) {
    |s| >= 1 && AllDigits(s) && (s[0] == '0' ==> s == "0")
  }

  /** The decimal numeral of `n`, as the library prints an integer. */
  function Show(n: nat): (s: string)
    ensures Canonical(s)
    ensures Value(s) == n
  {
    if n < 10 then [DigitChar(n)]
    else
      var s := Show(n / 10) + [DigitChar(n % 10)];
      assert s[..|s| - 1] == Show(n / 10);
      s
  }

  lemma {:induction false} LeadingDigitPositive(s: string)
    requires |s| >= 1 && AllDigits(s) && s[0] != '0'
    ensures Value(s) > 0
    decreases |s|
  {
    if |s| > 1 {
      LeadingDigitPositive(s[..|s| - 1]);
    }
  }

  /** Printing the value of a canonical numeral gives the numeral back. */
  lemma {:induction false} ShowValue(s: string)
    requires Canonical(s)
    ensures Show(Value(s)) == s
    decreases |s|
  {
    if |s| > 1 {
      var p := s[..|s| - 1];
      LeadingDigitPositive(s);
      LeadingDigitPositive(p);
      ShowValue(p);
      assert Value(s) / 10 == Value(p);
      assert Value(s) % 10 == DigitValue(s[|s| - 1]);
      assert s == p + [s[|s| - 1]];
    }
  }

  /** Two canonical numerals with the same value are the same numeral. */
  lemma CanonicalUnique(a: string, b: string)
    requires Canonical(a) && Canonical(b) && Value(a) == Value(b)
    ensures a == b
  {
    ShowValue(a);
    ShowValue(b);
  }

  lemma {:induction false} Pow10Add(a: nat, b: nat)
    ensures Pow10(a + b) == Pow10(a) * Pow10(b)
    decreases a
  {
    if a > 0 {
      Pow10Add(a - 1, b);
      assert Pow10(a + b) == 10 * Pow10(a - 1 + b);
    }
  }

  // ---------------------------------------------------------------------
  // Reading a decimal
  // ---------------------------------------------------------------------

  /** The text `[-]whole[.fraction][e[+-]exp]`, with the exponent's value. */
  datatype Decimal = Decimal(negative: bool, whole: string, fraction: string, exponent: int)
  {
    predicate Valid() {
      AllDigits(whole) && AllDigits(fraction) && |whole| + |fraction| >= 1
    }

    /** The digits of the coefficient, with the point removed. */
    function Digits(): string
      requires Valid()
      ensures AllDigits(Digits())
    {
      whole + fraction
    }
  }

  /** The exponent suffix: nothing, or `e`/`E`, an optional sign and digits. */
  function ParseExponent(rest: string): (r: Option<int>)
  {
    if rest == [] then Some(0)
    else if rest[0] != 'e' && rest[0] != 'E' then None
    else
      var signed := rest[1..];
      var hasSign := |signed| > 0 && (signed[0] == '-' || signed[0] == '+');
      var digits := if hasSign then signed[1..] else signed;
      if |digits| == 0 || !AllDigits(digits) then None
      else
        var magnitude: int := Value(digits);
        Some(if hasSign && signed[0] == '-' then -magnitude else magnitude)
  }

  /** The library's plain-number syntax,
      `-?(\d+(\.\d*)?|\.\d+)(e[+-]?\d+)?` without regard to case. */
  function ParseDecimal(t: string): (r: Option<Decimal>)
    ensures r.Some? ==> r.value.Valid()
    ensures r.Some? ==> (r.value.negative <==> |t| > 0 && t[0] == '-')
  {
    if |t| > 0 && t[0] == '-' then
      match ParseUnsigned(t[1..])
      case None => None
      case Some(d) => Some(d.(negative := true))
    else ParseUnsigned(t)
  }

  /** The text after an optional minus sign: the whole digits, then the rest. */
  function ParseUnsigned(body: string): (r: Option<Decimal>)
    ensures r.Some? ==> r.value.Valid() && !r.value.negative
  {
    var w := DigitRun(body, 0);
    ParseAfterWhole(body[..w], body[w..])
  }

  /** After the whole digits: an optional point with fraction digits. */
  function ParseAfterWhole(whole: string, afterWhole: string): (r: Option<Decimal>)
    requires AllDigits(whole)
    ensures r.Some? ==> r.value.Valid() && !r.value.negative
  {
    if |afterWhole| > 0 && afterWhole[0] == '.' then
      var afterDot := afterWhole[1..];
      var f := DigitRun(afterDot, 0);
      ParseTail(whole, afterDot[..f], afterDot[f..])
    else ParseTail(whole, "", afterWhole)
  }

  /** At least one digit overall, then the exponent suffix. */
  function ParseTail(whole: string, fraction: string, rest: string): (r: Option<Decimal>)
    requires AllDigits(whole) && AllDigits(fraction)
    ensures r.Some? ==> r.value.Valid() && !r.value.negative
  {
    if |whole| + |fraction| == 0 then None
    else
      match ParseExponent(rest)
      case None => None
      case Some(e) => Some(Decimal(false, whole, fraction, e))
  }

  /** A canonical spelling of a decimal: the point only before a non-empty
      fraction, the exponent only when it is not zero. */
  function Render(d: Decimal): string
    requires d.Valid()
  {
    (if d.negative then "-" else "") + UnsignedText(d)
  }

  function Abs(x: int): nat {
    if x < 0 then -x else x
  }

  /** Reading `whole[.fraction]` followed by a suffix that starts with an
      exponent marker, or by nothing. */
  lemma ParseUnsignedParts(whole: string, dot: bool, fraction: string, rest: string)
    requires AllDigits(whole) && AllDigits(fraction)
    requires fraction != [] ==> dot
    requires whole == [] ==> dot && fraction != []
    requires rest == [] || rest[0] == 'e' || rest[0] == 'E'
    ensures ParseUnsigned(whole + (if dot then "." else "") + fraction + rest)
              == ParseTail(whole, fraction, rest)
  {
    var dotText: string := if dot then "." else "";
    var after := dotText + fraction + rest;
    var body := whole + dotText + fraction + rest;
    assert body == whole + after;
    assert ParseUnsigned(body) == ParseAfterWhole(whole, after) by {
      assert after == [] || after[0] == '.' || after[0] == 'e' || after[0] == 'E';
      DigitRunPrefix(body, whole);
      assert body[..|whole|] == whole && body[|whole|..] == after;
    }
    ParseAfterWholeParts(whole, dot, fraction, rest);
  }

  lemma ParseAfterWholeParts(whole: string, dot: bool, fraction: string, rest: string)
    requires AllDigits(whole) && AllDigits(fraction)
    requires fraction != [] ==> dot
    requires rest == [] || rest[0] == 'e' || rest[0] == 'E'
    ensures ParseAfterWhole(whole, (if dot then "." else "") + fraction + rest)
              == ParseTail(whole, fraction, rest)
  {
    var after := (if dot then "." else "") + fraction + rest;
    if dot {
      var afterDot := fraction + rest;
      assert after[1..] == afterDot;
      DigitRunPrefix(afterDot, fraction);
      assert afterDot[..|fraction|] == fraction && afterDot[|fraction|..] == rest;
    } else {
      assert fraction == [];
      assert after == rest;
    }
  }

  /** A digit run stops exactly at the end of a leading all-digit part that
      is followed by a non-digit or by nothing. */
  lemma DigitRunPrefix(s: string, p: string)
    requires AllDigits(p) && |p| <= |s| && s[..|p|] == p
    requires |p| < |s| ==> !IsDigit(s[|p|])
    ensures DigitRun(s, 0) == |p|
  {
    forall j | 0 <= j < |p| ensures IsDigit(s[j]) {
      assert s[j] == p[j];
    }
    DigitRunUpTo(s, 0, |p|);
  }

  /** Reading back a rendered decimal recovers it. */
  lemma ParseRender(d: Decimal)
    requires d.Valid()
    ensures ParseDecimal(Render(d)) == Some(d)
  {
    ParseUnsignedText(d);
    ParseSigned(d.negative, UnsignedText(d), d.(negative := false));
  }

  /** A leading minus sign only sets the sign of what follows. */
  lemma ParseSigned(negative: bool, u: string, d: Decimal)
    requires ParseUnsigned(u) == Some(d) && u != [] && u[0] != '-'
    ensures ParseDecimal((if negative then "-" else "") + u) == Some(d.(negative := negative))
  {
    var t := (if negative then "-" else "") + u;
    if negative {
      assert t[1..] == u;
    } else {
      assert t == u;
    }
  }

  /** `Render` without the sign. */
  function UnsignedText(d: Decimal): string
    requires d.Valid()
  {
    d.whole + (if d.fraction == [] then "" else "." + d.fraction) + ExponentText(d.exponent)
  }

  lemma ParseUnsignedText(d: Decimal)
    requires d.Valid()
    ensures ParseUnsigned(UnsignedText(d)) == Some(d.(negative := false))
    ensures UnsignedText(d) != [] && UnsignedText(d)[0] != '-'
  {
    var rest := ExponentText(d.exponent);
    var dot := d.fraction != [];
    var u := d.whole + (if dot then "." else "") + d.fraction + rest;
    assert UnsignedText(d) == u;
    ParseExponentText(d.exponent);
    ParseUnsignedParts(d.whole, dot, d.fraction, rest);
    if d.whole != [] {
      assert u[0] == d.whole[0];
      assert IsDigit(d.whole[0]);
    } else {
      assert u[0] == '.';
    }
  }

  function ExponentText(e: int): string {
    if e == 0 then "" else "e" + (if e < 0 then "-" else "") + Show(Abs(e))
  }

  lemma ParseExponentText(e: int)
    ensures ParseExponent(ExponentText(e)) == Some(e)
    ensures var t := ExponentText(e); t == [] || t[0] == 'e'
  {
    if e != 0 {
      var t := ExponentText(e);
      var n := Show(Abs(e));
      if e < 0 {
        assert t[1..] == "-" + n;
        assert t[1..][1..] == n;
      } else {
        assert t[1..] == n;
        assert IsDigit(n[0]);
      }
    }
  }

  // ---------------------------------------------------------------------
  // Shifting and rounding
  // ---------------------------------------------------------------------

  /** Division of `v` by `p` rounded half up: whole steps of `p` are
      taken while at least half a step remains. */
  function RoundHalfUp(v: nat, p: nat): nat
    requires p >= 1
    decreases v
  {
    if 2 * v < p then 0
    else if v < p then 1
    else 1 + RoundHalfUp(v - p, p)
  }

  /** `m` is the integer nearest to `v / p`, the larger one on a tie. */
  predicate IsRoundedHalfUp(m: nat, v: nat, p: nat) {
    2 * m * p <= 2 * v + p < 2 * (m + 1) * p
  }

  /** `RoundHalfUp(v, p)` is the integer nearest to `v / p`, and the larger
      of the two when `v / p` lies halfway between. */
  lemma {:induction false} RoundHalfUpNearest(v: nat, p: nat)
    requires p >= 1
    ensures IsRoundedHalfUp(RoundHalfUp(v, p), v, p)
    decreases v
  {
    if 2 * v >= p && v >= p {
      RoundHalfUpNearest(v - p, p);
      var m' := RoundHalfUp(v - p, p);
      assert 2 * (m' + 1) * p == 2 * m' * p + 2 * p;
      assert 2 * (m' + 2) * p == 2 * m' * p + 4 * p;
    }
  }

  /** The magnitude `v * 10^-e` rounded to an integer: exact when `e <= 0`,
      to the nearest integer (halves away from zero) otherwise. */
  function Scale(v: nat, e: int): nat {
    if e <= 0 then AppendZeros(v, -e) else RoundHalfUp(v, Pow10(e))
  }

  /** `v` with `n` zero digits appended. */
  function AppendZeros(v: nat, n: nat): nat {
    if n == 0 then v else 10 * AppendZeros(v, n - 1)
  }

  lemma {:induction false} AppendZerosIsProduct(v: nat, n: nat)
    ensures AppendZeros(v, n) == v * Pow10(n)
  {
    if n > 0 {
      AppendZerosIsProduct(v, n - 1);
      MulAssoc(10, v, Pow10(n - 1));
    }
  }

  /** `Scale` is the integer nearest to `v * 10^-e`, halves rounded up:
      `m * 10^e` is within half of `10^e` of `v`, or equal to `v * 10^-e`
      when no digit is cut off. */
  lemma ScaleNearest(v: nat, e: int)
    ensures var m := Scale(v, e);
            && (e <= 0 ==> m == v * Pow10(-e))
            && (e > 0 ==> IsRoundedHalfUp(m, v, Pow10(e)))
  {
    if e > 0 {
      RoundHalfUpNearest(v, Pow10(e));
    } else {
      AppendZerosIsProduct(v, -e);
    }
  }

  /** `toFixed(0)` of the decimal shifted by `shift`: a minus sign when the
      number read was negative and not zero, then the rounded magnitude. */
  function Fixed(d: Decimal, shift: int): string
    requires d.Valid()
  {
    var v := Value(d.Digits());
    (if d.negative && v != 0 then "-" else "")
    + Show(Scale(v, |d.fraction| - d.exponent - shift))
  }

  /** Whether every exponent the computation meets stays within the
      library's limits; this bound is generous, not tight. */
  predicate InExponentRange(d: Decimal, shift: int) {
    |d.whole| + |d.fraction| + Abs(d.exponent) + Abs(shift) < MaxExponent
  }

  // ---------------------------------------------------------------------
  // getAmountWei
  // ---------------------------------------------------------------------

  /** What the function returns: a string, or a case this model does not
      decide (other syntaxes the library accepts or rejects, and values past
      its exponent limits). */
  datatype Outcome = Printed(text: string) | BeyondModel

  /** `getAmountWei(amount, decimals)`. */
  function AmountWei(amount: Option<string>, decimals: Option<int>): (r: Outcome)
    ensures amount == None || amount == Some("") ==> r == Printed("0")
    ensures r.Printed? ==> r.text != []
  {
    if amount == None || amount.value == "" then Printed("0")
    else ShiftedText(RemoveCommas(amount.value), decimals.GetOr(DefaultDecimals))
  }

  /** The `try` block: read `t`, shift it by `shift` places, print it with
      no fractional digits; a rejected shift throws and yields "0". */
  function ShiftedText(t: string, shift: int): (r: Outcome)
    ensures r.Printed? ==> r.text != []
  {
    if shift < -MaxSafeInteger || MaxSafeInteger < shift then Printed("0")
    else if t == [] then Printed("NaN")
    else
      match ParseDecimal(t)
      case None => BeyondModel
      case Some(d) => if InExponentRange(d, shift) then Printed(Fixed(d, shift)) else BeyondModel
  }

  /** Omitting `decimals` shifts by six places. */
  lemma DefaultShiftIsSix(amount: Option<string>)
    ensures AmountWei(amount, None) == AmountWei(amount, Some(6))
  {
  }

  /** A shift the library rejects makes the function fall back to "0",
      whatever the amount. */
  lemma RejectedShiftGivesZero(amount: Option<string>, shift: int)
    requires shift < -MaxSafeInteger || MaxSafeInteger < shift
    ensures AmountWei(amount, Some(shift)) == Printed("0")
  {
  }

  /** A non-empty amount made only of commas is read as the empty string,
      which the library takes for NaN. */
  lemma CommasOnlyIsNaN(amount: string, shift: int)
    requires amount != [] && RemoveCommas(amount) == []
    requires -MaxSafeInteger <= shift <= MaxSafeInteger
    ensures AmountWei(Some(amount), Some(shift)) == Printed("NaN")
  {
  }

  /** Shifting by at least as many places as there are fractional digits
      loses nothing. */
  lemma ScaleExact(v: nat, fractionDigits: nat, shift: int)
    requires fractionDigits <= shift
    ensures Scale(v, fractionDigits - shift) * Pow10(fractionDigits) == v * Pow10(shift)
  {
    AppendZerosIsProduct(v, shift - fractionDigits);
    Pow10Split(shift, fractionDigits);
    MulAssoc(v, Pow10(shift - fractionDigits), Pow10(fractionDigits));
  }

  lemma Pow10Split(n: nat, k: nat)
    requires k <= n
    ensures Pow10(n) == Pow10(n - k) * Pow10(k)
  {
    Pow10Add(n - k, k);
  }

  /** Associativity of multiplication, stated once so that proofs can name
      the one regrouping they need instead of leaving it to nonlinear search. */
  lemma MulAssoc(x: int, y: int, z: int)
    ensures (x * y) * z == x * (y * z)
  {
  }

  /** The central promise: a non-negative decimal, commas allowed, with no
      more fractional digits than `shift`, comes out as the canonical
      numeral of its value times `10^shift`, with neither point nor comma. */
  lemma ExactShift(amount: string, shift: int, whole: string, dot: bool, fraction: string)
    requires AllDigits(whole) && AllDigits(fraction)
    requires fraction != [] ==> dot
    requires whole == [] ==> dot && fraction != []
    requires RemoveCommas(amount) == whole + (if dot then "." else "") + fraction
    requires |fraction| <= shift
    requires |whole| + |fraction| + shift < MaxExponent
    ensures var r := AmountWei(Some(amount), Some(shift));
            && r.Printed?
            && Canonical(r.text)
            && Value(r.text) * Pow10(|fraction|) == Value(whole + fraction) * Pow10(shift)
  {
    PlainShiftShown(amount, shift, whole, dot, fraction);
    ExactOutcome(AmountWei(Some(amount), Some(shift)), Value(whole + fraction), |fraction|, shift);
  }

  lemma ExactOutcome(r: Outcome, v: nat, fractionDigits: nat, shift: int)
    requires fractionDigits <= shift && r == Printed(Show(Scale(v, fractionDigits - shift)))
    ensures r.Printed? && Canonical(r.text) && Value(r.text) * Pow10(fractionDigits) == v * Pow10(shift)
  {
    ScaleExact(v, fractionDigits, shift);
  }

  /** With more fractional digits than `shift`, the result is the canonical
      numeral of the integer nearest to value times `10^shift`, halves
      rounded up. */
  lemma RoundedShift(amount: string, shift: int, whole: string, dot: bool, fraction: string)
    requires AllDigits(whole) && AllDigits(fraction)
    requires fraction != [] ==> dot
    requires whole == [] ==> dot && fraction != []
    requires RemoveCommas(amount) == whole + (if dot then "." else "") + fraction
    requires shift < |fraction|
    requires |whole| + |fraction| + Abs(shift) < MaxExponent
    ensures var r := AmountWei(Some(amount), Some(shift));
            var cut := Pow10(|fraction| - shift);
            var v := Value(whole + fraction);
            && r.Printed?
            && Canonical(r.text)
            && IsRoundedHalfUp(Value(r.text), v, cut)
  {
    PlainShiftShown(amount, shift, whole, dot, fraction);
    RoundedOutcome(AmountWei(Some(amount), Some(shift)), whole, fraction, shift);
  }

  lemma RoundedOutcome(r: Outcome, whole: string, fraction: string, shift: int)
    requires AllDigits(whole) && AllDigits(fraction) && shift < |fraction|
    requires r == Printed(Show(Scale(Value(whole + fraction), |fraction| - shift)))
    ensures var cut := Pow10(|fraction| - shift);
            var v := Value(whole + fraction);
            && r.Printed?
            && Canonical(r.text)
            && IsRoundedHalfUp(Value(r.text), v, cut)
  {
    ScaleNearest(Value(whole + fraction), |fraction| - shift);
  }

  /** A plain decimal prints its digits' value, scaled by the fractional
      digits it has beyond `shift`. */
  lemma PlainShiftShown(amount: string, shift: int, whole: string, dot: bool, fraction: string)
    requires AllDigits(whole) && AllDigits(fraction)
    requires fraction != [] ==> dot
    requires whole == [] ==> dot && fraction != []
    requires RemoveCommas(amount) == whole + (if dot then "." else "") + fraction
    requires |whole| + |fraction| + Abs(shift) < MaxExponent
    ensures AmountWei(Some(amount), Some(shift))
            == Printed(Show(Scale(Value(whole + fraction), |fraction| - shift)))
  {
    var d := Decimal(false, whole, fraction, 0);
    var v := Value(whole + fraction);
    var e := |fraction| - shift;
    assert AmountWei(Some(amount), Some(shift)) == Printed(Fixed(d, shift)) by {
      PlainShiftText(amount, shift, whole, dot, fraction);
    }
    assert Fixed(d, shift) == Show(Scale(v, e)) by {
      assert d.Digits() == whole + fraction;
      FixedMagnitude(d, shift, v, e);
    }
    PrintedScaled(AmountWei(Some(amount), Some(shift)), Fixed(d, shift), v, e, whole, fraction, shift);
  }

  /** Substitutes the two numbers into the printed outcome. A separate lemma,
      because the solver does not find this rewriting among the parser's terms. */
  lemma PrintedScaled(r: Outcome, text: string, v: nat, e: int, whole: string, fraction: string, shift: int)
    requires AllDigits(whole) && AllDigits(fraction)
    requires r == Printed(text) && text == Show(Scale(v, e))
    requires v == Value(whole + fraction) && e == |fraction| - shift
    ensures r == Printed(Show(Scale(Value(whole + fraction), |fraction| - shift)))
  {
  }

  lemma PlainShiftText(amount: string, shift: int, whole: string, dot: bool, fraction: string)
    requires AllDigits(whole) && AllDigits(fraction)
    requires fraction != [] ==> dot
    requires whole == [] ==> dot && fraction != []
    requires RemoveCommas(amount) == whole + (if dot then "." else "") + fraction
    requires |whole| + |fraction| + Abs(shift) < MaxExponent
    ensures AmountWei(Some(amount), Some(shift)) == Printed(Fixed(Decimal(false, whole, fraction, 0), shift))
  {
    var t := RemoveCommas(amount);
    var d := Decimal(false, whole, fraction, 0);
    ParsePlain(t, whole, dot, fraction);
    assert amount != [];
    assert -MaxSafeInteger <= shift <= MaxSafeInteger && InExponentRange(d, shift) by {
      assert Abs(d.exponent) == 0;
    }
    ShiftedParsed(t, shift, d);
    AmountWeiReadsStripped(amount, shift);
  }

  /** An unsigned decimal prints the rounded magnitude `v` of its digits,
      scaled by `e`, whichever way those two numbers are written. */
  lemma FixedMagnitude(d: Decimal, shift: int, v: nat, e: int)
    requires d.Valid() && !d.negative
    requires v == Value(d.Digits()) && e == |d.fraction| - d.exponent - shift
    ensures Fixed(d, shift) == Show(Scale(v, e))
  {
    var u := Show(Scale(Value(d.Digits()), |d.fraction| - d.exponent - shift));
    assert Fixed(d, shift) == u by {
      FixedUnsigned(d, shift);
    }
    assert u == Show(Scale(v, e)) by {
      ShowScaleArgs(Value(d.Digits()), |d.fraction| - d.exponent - shift, v, e);
    }
    SameText(Fixed(d, shift), u, Show(Scale(v, e)));
  }

  /** Transitivity of string equality, as a lemma so that the final step of
      `FixedMagnitude` is matched directly rather than searched for. */
  lemma SameText(a: string, b: string, c: string)
    requires a == b && b == c
    ensures a == c
  {
  }

  /** Printing depends only on the values of the magnitude and the exponent;
      kept separate so that the rewriting happens outside `Fixed`'s context. */
  lemma ShowScaleArgs(v: nat, e: int, v': nat, e': int)
    requires v == v' && e == e'
    ensures Show(Scale(v, e)) == Show(Scale(v', e'))
  {
  }

  /** The plain spelling `whole[.fraction]` reads as a non-negative decimal
      with exponent zero. */
  lemma ParsePlain(t: string, whole: string, dot: bool, fraction: string)
    requires AllDigits(whole) && AllDigits(fraction)
    requires fraction != [] ==> dot
    requires whole == [] ==> dot && fraction != []
    requires t == whole + (if dot then "." else "") + fraction
    ensures t != []
    ensures ParseDecimal(t) == Some(Decimal(false, whole, fraction, 0))
  {
    assert t == whole + (if dot then "." else "") + fraction + "";
    ParseUnsignedParts(whole, dot, fraction, "");
    assert t != [] && t[0] != '-' by {
      if whole != [] { assert t[0] == whole[0]; } else { assert t[0] == '.'; }
    }
  }

  /** A parsed decimal within the limits is printed by `Fixed`. */
  lemma ShiftedParsed(t: string, shift: int, d: Decimal)
    requires t != [] && ParseDecimal(t) == Some(d)
    requires -MaxSafeInteger <= shift <= MaxSafeInteger && InExponentRange(d, shift)
    ensures ShiftedText(t, shift) == Printed(Fixed(d, shift))
  {
  }

  /** Without a sign, `Fixed` prints just the rounded magnitude. */
  lemma FixedUnsigned(d: Decimal, shift: int)
    requires d.Valid() && !d.negative
    ensures Fixed(d, shift) == Show(Scale(Value(d.Digits()), |d.fraction| - d.exponent - shift))
  {
  }

  /** With a sign, `Fixed` prints a minus before the same magnitude unless
      the number read is zero. */
  lemma FixedNegated(d: Decimal, shift: int)
    requires d.Valid() && !d.negative
    ensures Fixed(d.(negative := true), shift)
            == (if Value(d.Digits()) != 0 then "-" else "") + Fixed(d, shift)
  {
    assert d.(negative := true).Digits() == d.Digits();
  }

  /** A minus sign in front of an unsigned spelling reads as the same
      decimal, negated. */
  lemma ParseNegated(t: string)
    requires t != [] && t[0] != '-'
    requires ParseDecimal(t).Some?
    ensures ParseDecimal("-" + t) == Some(ParseDecimal(t).value.(negative := true))
  {
    assert ("-" + t)[1..] == t;
  }

  /** A leading minus sign changes only the sign of the printed result:
      the magnitude is shifted and rounded as for the positive amount, and
      the sign is printed unless the number read is zero. */
  lemma NegativeMirrorsPositive(amount: string, shift: int)
    requires RemoveCommas(amount) != [] && RemoveCommas(amount)[0] != '-'
    requires ParseDecimal(RemoveCommas(amount)).Some?
    requires -MaxSafeInteger <= shift <= MaxSafeInteger
    requires AmountWei(Some(amount), Some(shift)).Printed?
    ensures var p := AmountWei(Some(amount), Some(shift)).text;
            var d := ParseDecimal(RemoveCommas(amount)).value;
            AmountWei(Some("-" + amount), Some(shift))
              == Printed((if Value(d.Digits()) != 0 then "-" else "") + p)
  {
    var t := RemoveCommas(amount);
    RemoveCommasConcat("-", amount);
    assert RemoveCommas("-") == "-";
    assert RemoveCommas("-" + amount) == "-" + t;
    AmountWeiReadsStripped(amount, shift);
    AmountWeiReadsStripped("-" + amount, shift);
    ShiftedTextNegated(t, shift);
  }

  /** A non-empty amount is read with its commas removed. */
  lemma AmountWeiReadsStripped(amount: string, shift: int)
    requires amount != []
    ensures AmountWei(Some(amount), Some(shift)) == ShiftedText(RemoveCommas(amount), shift)
  {
  }

  lemma ShiftedTextNegated(t: string, shift: int)
    requires t != [] && t[0] != '-'
    requires ParseDecimal(t).Some?
    requires -MaxSafeInteger <= shift <= MaxSafeInteger
    requires ShiftedText(t, shift).Printed?
    ensures var d := ParseDecimal(t).value;
            ShiftedText("-" + t, shift)
              == Printed((if Value(d.Digits()) != 0 then "-" else "") + ShiftedText(t, shift).text)
  {
    var d := ParseDecimal(t).value;
    assert InExponentRange(d, shift);
    ParseNegated(t);
    ShiftedParsed(t, shift, d);
    ShiftedParsed("-" + t, shift, d.(negative := true));
    FixedNegated(d, shift);
  }

  /** Thousands separators do not change the amount: a comma-free,
      non-empty amount and its comma-grouped form give the same result. */
  lemma GroupingDoesNotChangeAmount(amount: string, decimals: Option<int>)
    requires amount != [] && ',' !in amount
    ensures AmountWei(Some(FormatWithCommas(amount)), decimals) == AmountWei(Some(amount), decimals)
  {
    FormatRoundTrip(amount);
  }
}
