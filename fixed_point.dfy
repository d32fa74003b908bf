/**
 * Amounts and balances are decimals with four fractional digits and at most
 * twelve digits in all (a decimal field with max_digits 12 and decimal_places 4).
 * The model holds them as integer counts of ten-thousandths; this module is the
 * text form on both sides: the request parser and the response renderer.
 */
module FixedPoint {
  import opened Results
  import opened Text

  /** Four fractional digits: one unit of the model is 1/10000. */
  const Places: nat := 4
  const Scale: nat := 10000
  /** max_digits 12 minus decimal_places 4 leaves eight digits before the point. */
  const MaxWholeDigits: nat := 8
  /** Every value with at most twelve digits, four of them fractional, is below 10^12 units. */
  const Limit: nat := 1_000_000_000_000

  predicate Fits(units: int)
  {
    -(Limit as int) < units < Limit as int
  }

  /** Position of the first `c` in `s`, if any. */
  function IndexOf(s: string, c: char): (r: Option<nat>)
    ensures r.Some? ==> r.value < |s| && s[r.value] == c
  {
    if s == [] then None
    else if s[0] == c then Some(0)
    else
      match IndexOf(s[1..], c)
      case None => None
      case Some(i) => Some(i + 1)
  }

  /** The text after an optional leading sign, and whether that sign is '-'. */
  function Unsigned(s: string): (bool, string)
  {
    if |s| > 0 && (s[0] == '-' || s[0] == '+') then (s[0] == '-', s[1..]) else (false, s)
  }

  /** A magnitude with its sign applied. */
  function Signed(negative: bool, m: nat): int
  {
    if negative then -(m as int) else m as int
  }

  /**
   * Reads `[+|-]digits[.digits]` (either side of the point may be empty, not both)
   * into ten-thousandths. More than four fractional digits, or a whole part of more
   * than eight significant digits, is refused, as is anything that is not a number.
   */
  function Parse(s: string): (r: Option<int>)
    ensures r.Some? ==> Fits(r.value)
  {
    var (negative, body) := Unsigned(s);
    match ParseMagnitude(body)
    case None => None
    case Some(m) => Some(Signed(negative, m))
  }

  /** The text before the first point and the text after it; no point leaves no fraction. */
  function SplitPoint(body: string): (string, string)
  {
    match IndexOf(body, '.')
    case None => (body, "")
    case Some(i) => (body[..i], body[i + 1..])
  }

  /** `digits[.digits]` without a sign, in ten-thousandths. */
  function ParseMagnitude(body: string): (r: Option<nat>)
    ensures r.Some? ==> r.value < Limit
  {
    var (whole, fraction) := SplitPoint(body);
    PartsValue(whole, fraction)
  }

  /** The value of the digits on the two sides of the point, if they make a decimal that fits. */
  function PartsValue(whole: string, fraction: string): (r: Option<nat>)
    ensures r.Some? ==> r.value < Limit
  {
    if !AllDigits(whole) || !AllDigits(fraction) || (whole == "" && fraction == "") then None
    else if |fraction| > Places then None
    else if ValueOf(whole) >= Pow10(MaxWholeDigits) then None
    else
      var f := FractionUnits(fraction);
      var m := ValueOf(whole) * Scale + f;
      assert m < Limit by { WholeBound(ValueOf(whole), f); }
      Some(m)
  }

  /** A fractional digit string of at most four digits, in ten-thousandths. */
  function FractionUnits(fraction: string): (f: nat)
    requires AllDigits(fraction) && |fraction| <= Places
    ensures f < Scale
  {
    ValueBound(fraction);
    assert Pow10(1) == 10 && Pow10(2) == 100 && Pow10(3) == 1000 && Pow10(4) == 10000;
    var v := ValueOf(fraction);
    if |fraction| == 0 then 0
    else if |fraction| == 1 then v * 1000
    else if |fraction| == 2 then v * 100
    else if |fraction| == 3 then v * 10
    else v
  }

  lemma WholeBound(w: nat, f: nat)
    requires w < Pow10(MaxWholeDigits) && f < Scale
    ensures w * Scale + f < Limit
  {
    assert Pow10(MaxWholeDigits) == 100_000_000;
  }

  /** The rendering of a decimal field at scale 4: sign, whole part, point, four digits. */
  function Render(units: int): (s: string)
  {
    var m: nat := if units < 0 then -units else units;
    (if units < 0 then "-" else "") + (Numeral(m / Scale) + "." + Padded(m % Scale, Places))
  }

  /**
   * The text form of a rendered decimal: an optional '-', a whole part without
   * leading zeros, a point and exactly four fractional digits; '-' appears only
   * before a value other than zero.
   */
  predicate Canonical(s: string)
  {
    var negative := |s| > 0 && s[0] == '-';
    var body := if negative then s[1..] else s;
    && |body| >= 6 && body[|body| - 5] == '.'
    && AllDigits(body[..|body| - 5]) && AllDigits(body[|body| - 4..])
    && (body[0] == '0' ==> |body| == 6)
    && (negative ==> body != "0.0000")
  }

  /** In `whole.frac` with an all-digit `whole`, the first point is the one after `whole`. */
  lemma {:induction false} FirstPoint(whole: string, frac: string)
    requires AllDigits(whole)
    ensures IndexOf(whole + "." + frac, '.') == Some(|whole|)
  {
    var body := whole + "." + frac;
    if whole == [] {
      assert body[0] == '.';
    } else {
      assert body[0] == whole[0] && IsDigit(whole[0]);
      assert body[1..] == whole[1..] + "." + frac;
      FirstPoint(whole[1..], frac);
    }
  }

  /** Digits hold no point. */
  lemma {:induction false} NoPoint(whole: string)
    requires AllDigits(whole)
    ensures IndexOf(whole, '.') == None
  {
    if whole != [] {
      assert IsDigit(whole[0]);
      NoPoint(whole[1..]);
    }
  }

  /** The point splits `whole.fraction` back into its two sides. */
  lemma {:induction false} PointSplit(whole: string, fraction: string)
    requires AllDigits(whole)
    ensures SplitPoint(whole + "." + fraction) == (whole, fraction)
  {
    var body := whole + "." + fraction;
    FirstPoint(whole, fraction);
    assert body[..|whole|] == whole && body[|whole| + 1..] == fraction;
  }

  /** Digits without a point are all whole part. */
  lemma {:induction false} NoPointSplit(whole: string)
    requires AllDigits(whole)
    ensures SplitPoint(whole) == (whole, "")
  {
    NoPoint(whole);
  }

  /** The unsigned part of a rendering reads back as the magnitude. */
  lemma ParseMagnitudeRender(m: nat)
    requires m < Limit
    ensures ParseMagnitude(Numeral(m / Scale) + "." + Padded(m % Scale, Places)) == Some(m)
  {
    var whole, frac := Numeral(m / Scale), Padded(m % Scale, Places);
    PointSplit(whole, frac);
    NumeralValue(m / Scale);
    PaddedValue(m % Scale, Places);
    assert Pow10(MaxWholeDigits) == 100_000_000;
    assert FractionUnits(frac) == m % Scale;
    assert PartsValue(whole, frac) == Some(m);
  }

  /** Every amount that fits the field reads back from its rendering unchanged. */
  lemma ParseRender(units: int)
    requires Fits(units)
    ensures Parse(Render(units)) == Some(units)
  {
    var m: nat := if units < 0 then -units else units;
    var whole := Numeral(m / Scale);
    var body := whole + "." + Padded(m % Scale, Places);
    var s := Render(units);
    if units < 0 {
      assert s == "-" + body;
      assert s[1..] == body;
    } else {
      assert s == body;
      assert IsDigit(whole[0]);
      assert s[0] == whole[0];
    }
    assert Unsigned(s) == (units < 0, body);
    ParseMagnitudeRender(m);
  }

  /** The scale-4 rendering of zero, the balance of a new wallet. */
  lemma RenderZero()
    ensures Render(0) == "0.0000"
  {
    assert Numeral(0) == "0";
    assert Padded(0, 4) == "0000";
  }

  /** A string of zeros denotes zero. */
  lemma {:induction false} ZerosValue(s: string)
    requires forall i | 0 <= i < |s| :: s[i] == '0'
    ensures AllDigits(s) && ValueOf(s) == 0
  {
    if s != [] {
      ZerosValue(s[..|s| - 1]);
    }
  }

  /** Every rendering is in the canonical text form. */
  lemma RenderCanonical(units: int)
    ensures Canonical(Render(units))
  {
    var m: nat := if units < 0 then -units else units;
    var whole, frac := Numeral(m / Scale), Padded(m % Scale, Places);
    var body := whole + "." + frac;
    assert Render(units) == (if units < 0 then "-" else "") + body;
    assert body[..|body| - 5] == whole && body[|body| - 4..] == frac;
    NumeralLeading(m / Scale);
    if units < 0 && body == "0.0000" {
      assert whole == "0";
      PaddedValue(m % Scale, Places);
      ZerosValue(frac);
    }
    assert body[0] == whole[0];
  }

  /** Fractional digits count from the first place after the point. */
  lemma {:induction false} FractionScaled(fraction: string)
    requires AllDigits(fraction) && |fraction| <= Places
    ensures FractionUnits(fraction) == ValueOf(fraction) * Pow10(Places - |fraction|)
  {
    assert Pow10(1) == 10 && Pow10(2) == 100 && Pow10(3) == 1000 && Pow10(4) == 10000;
  }

  /** A text read as a sign (or none) and a body that does not itself start with a sign. */
  lemma {:induction false} ParseSigned(sign: string, body: string)
    requires sign == "" || sign == "+" || sign == "-"
    requires |body| > 0 && body[0] != '+' && body[0] != '-'
    ensures Parse(sign + body) ==
      if ParseMagnitude(body).Some? then Some(Signed(sign == "-", ParseMagnitude(body).value)) else None
  {
    if sign != "" {
      assert (sign + body)[1..] == body;
    } else {
      assert sign + body == body;
    }
    assert Unsigned(sign + body) == (sign == "-", body);
  }

  /**
   * What a decimal with a point reads as: `[sign]whole.fraction` is accepted exactly
   * when the fraction has at most four digits and the whole part is below 10^8, and
   * then denotes the whole part in units plus the fraction in ten-thousandths (see
   * `FractionScaled`). A fifth fractional digit or a ninth significant whole digit
   * is refused, not rounded.
   */
  lemma {:induction false} ParseDecimal(sign: string, whole: string, fraction: string)
    requires sign == "" || sign == "+" || sign == "-"
    requires AllDigits(whole) && AllDigits(fraction) && (whole != "" || fraction != "")
    ensures Parse(sign + (whole + "." + fraction)) ==
      if |fraction| <= Places && ValueOf(whole) < Pow10(MaxWholeDigits)
      then Some(Signed(sign == "-", ValueOf(whole) * Scale + FractionUnits(fraction)))
      else None
  {
    var body := whole + "." + fraction;
    assert body[0] == '.' || IsDigit(body[0]);
    ParseSigned(sign, body);
    MagnitudeOfParts(whole, fraction);
    PartsOutcome(whole, fraction);
    if |fraction| <= Places && ValueOf(whole) < Pow10(MaxWholeDigits) {
      var m := ValueOf(whole) * Scale + FractionUnits(fraction);
      assert ParseMagnitude(body) == Some(m);
      assert Parse(sign + body) == Some(Signed(sign == "-", m));
    } else {
      assert ParseMagnitude(body) == None;
      assert Parse(sign + body) == None;
    }
  }

  /** When two digit strings make a decimal that fits, and what it is worth. */
  lemma {:induction false} PartsOutcome(whole: string, fraction: string)
    requires AllDigits(whole) && AllDigits(fraction) && (whole != "" || fraction != "")
    ensures PartsValue(whole, fraction) ==
      if |fraction| <= Places && ValueOf(whole) < Pow10(MaxWholeDigits)
      then Some(ValueOf(whole) * Scale + FractionUnits(fraction))
      else None
  {
  }

  /** An unsigned `whole.fraction` is valued by its two sides. */
  lemma {:induction false} MagnitudeOfParts(whole: string, fraction: string)
    requires AllDigits(whole)
    ensures ParseMagnitude(whole + "." + fraction) == PartsValue(whole, fraction)
  {
    PointSplit(whole, fraction);
  }

  /** What a decimal without a point reads as: a whole number of units, if below 10^8. */
  lemma {:induction false} ParseInteger(sign: string, whole: string)
    requires sign == "" || sign == "+" || sign == "-"
    requires AllDigits(whole) && whole != ""
    ensures Parse(sign + whole) ==
      if ValueOf(whole) < Pow10(MaxWholeDigits) then Some(Signed(sign == "-", ValueOf(whole) * Scale)) else None
  {
    assert IsDigit(whole[0]);
    ParseSigned(sign, whole);
    NoPointSplit(whole);
    assert ParseMagnitude(whole) == PartsValue(whole, "");
    assert AllDigits("");
  }

  /**
   * Only `[+|-]digits[.digits]` is accepted: an accepted text is an optional sign,
   * then digits, then, if it has a point, the point and more digits, and the two
   * digit runs are not both empty. Anything else is not a number and is refused.
   */
  lemma {:induction false} ParseShape(s: string) returns (sign: string, whole: string, point: bool, fraction: string)
    requires Parse(s).Some?
    ensures sign == "" || sign == "+" || sign == "-"
    ensures AllDigits(whole) && AllDigits(fraction) && (whole != "" || fraction != "")
    ensures point ==> s == sign + (whole + "." + fraction)
    ensures !point ==> s == sign + whole && fraction == ""
  {
    var (negative, body) := Unsigned(s);
    sign := if |s| > 0 && (s[0] == '-' || s[0] == '+') then s[..1] else "";
    assert s == sign + body;
    assert PartsValue(SplitPoint(body).0, SplitPoint(body).1).Some?;
    match IndexOf(body, '.')
    case None =>
      point, whole, fraction := false, body, "";
    case Some(i) =>
      point, whole, fraction := true, body[..i], body[i + 1..];
      assert body == whole + "." + fraction;
  }

  /** A canonical text taken apart: sign, whole part, fraction. */
  lemma {:induction false} CanonicalSplit(s: string) returns (negative: bool, whole: string, fraction: string)
    requires Canonical(s)
    ensures s == (if negative then "-" else "") + (whole + "." + fraction)
    ensures AllDigits(whole) && 1 <= |whole| && (whole[0] == '0' ==> |whole| == 1)
    ensures AllDigits(fraction) && |fraction| == Places
    ensures negative ==> whole != "0" || fraction != "0000"
  {
    negative := s[0] == '-';
    var body := if negative then s[1..] else s;
    whole, fraction := body[..|body| - 5], body[|body| - 4..];
    assert body == whole + "." + fraction;
    assert whole[0] == body[0];
  }

  lemma ScaleSplit(w: nat, f: nat)
    requires f < Scale
    ensures (w * Scale + f) / Scale == w && (w * Scale + f) % Scale == f
  {
  }

  /** The only canonical parts of value zero are `0` and `0000`. */
  lemma {:induction false} ZeroParts(whole: string, fraction: string)
    requires AllDigits(whole) && 1 <= |whole| && (whole[0] == '0' ==> |whole| == 1)
    requires AllDigits(fraction) && |fraction| == Places
    requires ValueOf(whole) == 0 && ValueOf(fraction) == 0
    ensures whole == "0" && fraction == "0000"
  {
    ValueNumeral(whole);
    ValuePadded(fraction);
    NumeralLeading(0);
    assert Padded(0, Places) == "0000";
  }

  /** The rendering of a signed value, given the texts of its whole part and fraction. */
  lemma {:induction false} RenderSigned(negative: bool, w: nat, f: nat, whole: string, fraction: string)
    requires f < Scale && (negative ==> w * Scale + f != 0)
    requires Numeral(w) == whole && Padded(f, Places) == fraction
    ensures Render(Signed(negative, w * Scale + f)) == (if negative then "-" else "") + (whole + "." + fraction)
  {
    ScaleSplit(w, f);
  }

  /** Rendering the value of canonical parts gives back those parts. */
  lemma {:induction false} RenderParts(negative: bool, whole: string, fraction: string)
    requires AllDigits(whole) && 1 <= |whole| && (whole[0] == '0' ==> |whole| == 1)
    requires AllDigits(fraction) && |fraction| == Places
    requires negative ==> whole != "0" || fraction != "0000"
    ensures Render(Signed(negative, ValueOf(whole) * Scale + ValueOf(fraction)))
         == (if negative then "-" else "") + (whole + "." + fraction)
  {
    assert ValueOf(fraction) < Scale by { ValueBound(fraction); assert Pow10(Places) == Scale; }
    ValueNumeral(whole);
    ValuePadded(fraction);
    if negative && ValueOf(whole) * Scale + ValueOf(fraction) == 0 {
      ZeroParts(whole, fraction);
    }
    RenderSigned(negative, ValueOf(whole), ValueOf(fraction), whole, fraction);
  }

  /** A canonical text that parses is the rendering of the value it reads as. */
  lemma {:induction false} RenderParse(s: string)
    requires Canonical(s) && Parse(s).Some?
    ensures Render(Parse(s).value) == s
  {
    var negative, whole, fraction := CanonicalSplit(s);
    ParseParts(negative, whole, fraction);
    RenderParts(negative, whole, fraction);
  }

  /** Parts with four fractional digits read as the whole part in units plus the fraction, if they fit. */
  lemma {:induction false} ParseParts(negative: bool, whole: string, fraction: string)
    requires AllDigits(whole) && 1 <= |whole|
    requires AllDigits(fraction) && |fraction| == Places
    ensures Parse((if negative then "-" else "") + (whole + "." + fraction)) ==
      if ValueOf(whole) < Pow10(MaxWholeDigits)
      then Some(Signed(negative, ValueOf(whole) * Scale + ValueOf(fraction)))
      else None
  {
    if negative {
      ParseDecimal("-", whole, fraction);
    } else {
      ParseDecimal("", whole, fraction);
    }
    assert FractionUnits(fraction) == ValueOf(fraction);
  }
}
