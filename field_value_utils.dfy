/**
 * `FieldValueUtils`: how a field editor shows a value of each kind
 * (`formatFieldValueToString`) and how numeric text is cut to a number of integer digits and
 * decimal places and then held between optional bounds (`formatNumericInputWithLimits`).
 */
module FieldValueUtils {
  import opened Wrappers
  import opened Strings
  import opened Filters
  import opened DateUtils
  import opened JsValues

  // ---------------------------------------------------------------------------
  // formatFieldValueToString
  // ---------------------------------------------------------------------------

  /** `formatFieldValueToString(type, value)`. Its declared result is a string, but for a
      NUMBER field holding something other than a number it hands the value itself back, and
      for a SELECT field holding a `Date` it yields the `key` such an object lacks
      (`undefined`); so the result is a `Value`. */
  function FormatFieldValueToString(t: FieldValueType, v: Value): (r: Value)
    ensures v == Null || v == Undefined ==> r == Str("")
    ensures t == BOOLEAN ==> r == Str("true") || r == Str("false") || r == Str("")
    ensures t == SELECT && v.OptionObj? ==> r == Str(v.option.key)
    ensures t == DATE && v.DateObj? ==> r == Str(FormatDateToYMDString(Some(v.date)))
    ensures t == MONTH && v.DateObj? ==> r == Str(FormatDateToYMString(Some(v.date)))
  {
    if v == Null || v == Undefined then Str("")
    else
      match t
      case DATE => if v.DateObj? then Str(FormatDateToYMDString(Some(v.date))) else Str(JsString(v))
      case MONTH => if v.DateObj? then Str(FormatDateToYMString(Some(v.date))) else Str(JsString(v))
      case BOOLEAN =>
        if v.Bool? then Str(if v.b then "true" else "false")
        else if v.Str? then Str(if LowerAscii(v.s) == "true" then "true" else "false")
        else Str("false")
      case NUMBER => if v.Num? then Str(IntToString(v.n)) else v
      case SELECT =>
        if v.OptionObj? then Str(v.option.key)
        else if v.DateObj? then Undefined
        else Str(JsString(v))
      case STRING => Str(JsString(v))
  }

  /** A BOOLEAN field shows `'true'` exactly for `true` and for text that lower-cases to
      `true`, and `'false'` for every other present value. */
  lemma BooleanDisplay(v: Value)
    requires v != Null && v != Undefined
    ensures FormatFieldValueToString(BOOLEAN, v) == Str("true") <==>
              v == Bool(true) || (v.Str? && LowerAscii(v.s) == "true")
    ensures FormatFieldValueToString(BOOLEAN, v) == Str("false") <==>
              !(v == Bool(true) || (v.Str? && LowerAscii(v.s) == "true"))
  {
  }

  /** Upper and lower case spell the same boolean. */
  lemma BooleanDisplayIgnoresCase(s: string)
    ensures FormatFieldValueToString(BOOLEAN, Str(s)) == FormatFieldValueToString(BOOLEAN, Str(LowerAscii(s)))
  {
    LowerAsciiIdempotent(s);
  }

  lemma LowerAsciiIdempotent(s: string)
    ensures LowerAscii(LowerAscii(s)) == LowerAscii(s)
  {
    var l := LowerAscii(s);
    assert forall i :: 0 <= i < |l| ==> !('A' <= l[i] <= 'Z');
  }

  /** Text passes through unchanged for every kind but BOOLEAN. */
  lemma TextDisplaysAsItself(t: FieldValueType, s: string)
    requires t != BOOLEAN
    ensures FormatFieldValueToString(t, Str(s)) == Str(s)
  {
  }

  /** The two texts a BOOLEAN field shows read back as themselves. */
  lemma BooleanShownIsStable(w: Value)
    requires w == Str("true") || w == Str("false")
    ensures FormatFieldValueToString(BOOLEAN, w) == w
  {
    if w == Str("true") {
      LowerAsciiOfTrue();
    } else {
      assert |LowerAscii(w.s)| == 5;
    }
  }

  /** Showing what is shown changes nothing, except for a `Date` in a SELECT field (whose
      `undefined` key shows as the empty string) and for an absent value. */
  lemma DisplayIsStable(t: FieldValueType, v: Value)
    requires v != Null && v != Undefined
    requires !(t == SELECT && v.DateObj?)
    ensures FormatFieldValueToString(t, FormatFieldValueToString(t, v)) == FormatFieldValueToString(t, v)
  {
    var w := FormatFieldValueToString(t, v);
    if t == BOOLEAN {
      BooleanShownIsStable(w);
    } else if t == NUMBER && !v.Num? {
      assert w == v;
    } else {
      assert w.Str?;
      TextDisplaysAsItself(t, w.s);
    }
  }

  /** An absent value in a BOOLEAN field shows as the empty string, and that string in turn
      shows as `'false'`. */
  lemma AbsentBooleanIsNotStable()
    ensures FormatFieldValueToString(BOOLEAN, Null) == Str("")
    ensures FormatFieldValueToString(BOOLEAN, Str("")) == Str("false")
  {
  }

  // ---------------------------------------------------------------------------
  // formatNumericInputWithLimits
  // ---------------------------------------------------------------------------

  /** The truncation step: the text before the first `.`, cut to `maxIntegerDigits`
      characters, and, when the text between the first and second `.` is not empty, a `.`
      and that text cut to `maxDecimalPlaces` characters. */
  function TruncateNumeric(val: string, maxIntegerDigits: nat, maxDecimalPlaces: nat): (r: string)
    ensures var parts := Split(val, '.');
            Take(parts[0], maxIntegerDigits) <= r
            && (r == Take(parts[0], maxIntegerDigits) <==> |parts| == 1 || parts[1] == "")
  {
    var parts := Split(val, '.');
    var integerPart := parts[0];
    var decimalPart := if |parts| > 1 then parts[1] else "";
    Take(integerPart, maxIntegerDigits)
      + (if decimalPart != "" then "." + Take(decimalPart, maxDecimalPlaces) else "")
  }

  /** `newVal = String(minValue)` when `parseFloat(newVal) < minValue`; `NaN` compares false. */
  function ClampBelow(s: string, minValue: Option<int>): (r: string)
    ensures var below := minValue.Some? && ParseFloat(s).Some? && ParseFloat(s).value < minValue.value as real;
            (below ==> r == IntToString(minValue.value)) && (!below ==> r == s)
  {
    var x := ParseFloat(s);
    if minValue.Some? && x.Some? && x.value < minValue.value as real then IntToString(minValue.value) else s
  }

  /** `newVal = String(maxValue)` when `parseFloat(newVal) > maxValue`. */
  function ClampAbove(s: string, maxValue: Option<int>): (r: string)
    ensures var above := maxValue.Some? && ParseFloat(s).Some? && ParseFloat(s).value > maxValue.value as real;
            (above ==> r == IntToString(maxValue.value)) && (!above ==> r == s)
  {
    var x := ParseFloat(s);
    if maxValue.Some? && x.Some? && x.value > maxValue.value as real then IntToString(maxValue.value) else s
  }

  /** Text that reads as a number still does after the lower bound, and then reads as the
      larger of that number and the bound. */
  lemma ClampBelowReadsAsMaximum(s: string, minValue: Option<int>)
    requires ParseFloat(s).Some?
    ensures var r := ClampBelow(s, minValue);
            var x := ParseFloat(s).value;
            && ParseFloat(r).Some?
            && ParseFloat(r).value == if minValue.Some? && x < minValue.value as real then minValue.value as real else x
  {
    if minValue.Some? {
      ParseFloatOfIntToString(minValue.value);
    }
  }

  /** Text that reads as a number still does after the upper bound, and then reads as the
      smaller of that number and the bound. */
  lemma ClampAboveReadsAsMinimum(s: string, maxValue: Option<int>)
    requires ParseFloat(s).Some?
    ensures var r := ClampAbove(s, maxValue);
            var x := ParseFloat(s).value;
            && ParseFloat(r).Some?
            && ParseFloat(r).value == if maxValue.Some? && x > maxValue.value as real then maxValue.value as real else x
  {
    if maxValue.Some? {
      ParseFloatOfIntToString(maxValue.value);
    }
  }

  /** `formatNumericInputWithLimits`: truncate, then apply the lower bound, then the upper one. */
  function FormatNumericInputWithLimits(val: string, maxIntegerDigits: nat, maxDecimalPlaces: nat,
                                        minValue: Option<int>, maxValue: Option<int>): (r: string)
    ensures var cut := TruncateNumeric(val, maxIntegerDigits, maxDecimalPlaces);
            && (r == cut || (minValue.Some? && r == IntToString(minValue.value))
                         || (maxValue.Some? && r == IntToString(maxValue.value)))
            && (minValue.None? && maxValue.None? ==> r == cut)
            && (ParseFloat(cut).None? ==> r == cut)
  {
    ClampAbove(ClampBelow(TruncateNumeric(val, maxIntegerDigits, maxDecimalPlaces), minValue), maxValue)
  }

  /** A prefix of a string without `c` has no `c` either. */
  lemma PrefixKeepsOut(p: string, s: string, c: char)
    requires p <= s && c !in s
    ensures c !in p
  {
    assert forall i :: 0 <= i < |p| ==> p[i] == s[i];
  }

  /** The shape of a truncated number: at most two `.`-pieces, each within its limit and a
      prefix of the matching piece of the input; hence a bounded length. */
  lemma TruncatedPieces(val: string, maxIntegerDigits: nat, maxDecimalPlaces: nat)
    ensures var r := TruncateNumeric(val, maxIntegerDigits, maxDecimalPlaces);
            var pieces := Split(r, '.');
            var parts := Split(val, '.');
            && |pieces| <= 2
            && pieces[0] == Take(parts[0], maxIntegerDigits)
            && |pieces[0]| <= maxIntegerDigits && pieces[0] <= parts[0]
            && (|pieces| == 2 <==> |parts| >= 2 && parts[1] != "")
            && (|pieces| == 2 ==> pieces[1] == Take(parts[1], maxDecimalPlaces))
            && (|pieces| == 2 ==> |pieces[1]| <= maxDecimalPlaces && pieces[1] <= parts[1])
            && |r| <= maxIntegerDigits + 1 + maxDecimalPlaces
  {
    var parts := Split(val, '.');
    var whole := Take(parts[0], maxIntegerDigits);
    PrefixKeepsOut(whole, parts[0], '.');
    if |parts| > 1 && parts[1] != "" {
      var dec := Take(parts[1], maxDecimalPlaces);
      PrefixKeepsOut(dec, parts[1], '.');
      SplitAtSeparator(whole, dec, '.');
      SplitWithoutSeparator(dec, '.');
      assert TruncateNumeric(val, maxIntegerDigits, maxDecimalPlaces) == whole + ['.'] + dec;
    } else {
      SplitWithoutSeparator(whole, '.');
      assert TruncateNumeric(val, maxIntegerDigits, maxDecimalPlaces) == whole;
    }
  }

  /** With at least one decimal place allowed, truncating again changes nothing. */
  lemma TruncationIsIdempotent(val: string, maxIntegerDigits: nat, maxDecimalPlaces: nat)
    requires maxDecimalPlaces > 0
    ensures var r := TruncateNumeric(val, maxIntegerDigits, maxDecimalPlaces);
            TruncateNumeric(r, maxIntegerDigits, maxDecimalPlaces) == r
  {
    var parts := Split(val, '.');
    var whole := Take(parts[0], maxIntegerDigits);
    PrefixKeepsOut(whole, parts[0], '.');
    if |parts| > 1 && parts[1] != "" {
      var dec := Take(parts[1], maxDecimalPlaces);
      PrefixKeepsOut(dec, parts[1], '.');
      SplitAtSeparator(whole, dec, '.');
      SplitWithoutSeparator(dec, '.');
      assert TruncateNumeric(val, maxIntegerDigits, maxDecimalPlaces) == whole + ['.'] + dec;
      assert Split(whole + ['.'] + dec, '.') == [whole, dec];
    } else {
      SplitWithoutSeparator(whole, '.');
      assert TruncateNumeric(val, maxIntegerDigits, maxDecimalPlaces) == whole;
    }
  }

  /** With no decimal places allowed, a decimal part leaves a dangling `.` that a second pass
      removes: `1.5` becomes `1.` and then `1`. */
  lemma TruncationWithoutDecimalsIsNotIdempotent()
    ensures TruncateNumeric("1.5", 8, 0) == "1."
    ensures TruncateNumeric("1.", 8, 0) == "1"
  {
    SplitAtSeparator("1", "5", '.');
    assert "1.5" == "1" + ['.'] + "5";
    SplitWithoutSeparator("5", '.');
    SplitAtSeparator("1", "", '.');
    assert "1." == "1" + ['.'] + "";
  }

  /** With bounds in order, a result that reads as a number lies between them: the lower
      bound is applied first and the upper one cannot undo it. */
  lemma ResultWithinBounds(val: string, maxIntegerDigits: nat, maxDecimalPlaces: nat,
                           minValue: Option<int>, maxValue: Option<int>)
    requires minValue.Some? && maxValue.Some? ==> minValue.value <= maxValue.value
    requires ParseFloat(TruncateNumeric(val, maxIntegerDigits, maxDecimalPlaces)).Some?
    ensures var r := FormatNumericInputWithLimits(val, maxIntegerDigits, maxDecimalPlaces, minValue, maxValue);
            && ParseFloat(r).Some?
            && (minValue.Some? ==> ParseFloat(r).value >= minValue.value as real)
            && (maxValue.Some? ==> ParseFloat(r).value <= maxValue.value as real)
  {
    var cut := TruncateNumeric(val, maxIntegerDigits, maxDecimalPlaces);
    var low := ClampBelow(cut, minValue);
    if minValue.Some? {
      ParseFloatOfIntToString(minValue.value);
    }
    if maxValue.Some? {
      ParseFloatOfIntToString(maxValue.value);
    }
    assert ParseFloat(low).Some?;
    assert minValue.Some? ==> ParseFloat(low).value >= minValue.value as real;
  }

  /** A truncated number within both bounds is returned as it is. */
  lemma InRangeIsKept(val: string, maxIntegerDigits: nat, maxDecimalPlaces: nat,
                      minValue: Option<int>, maxValue: Option<int>)
    requires var x := ParseFloat(TruncateNumeric(val, maxIntegerDigits, maxDecimalPlaces));
             x.Some? ==> (minValue.Some? ==> x.value >= minValue.value as real)
                         && (maxValue.Some? ==> x.value <= maxValue.value as real)
    ensures FormatNumericInputWithLimits(val, maxIntegerDigits, maxDecimalPlaces, minValue, maxValue)
         == TruncateNumeric(val, maxIntegerDigits, maxDecimalPlaces)
  {
  }

  /** A truncated number below the lower bound becomes the lower bound, when the bounds are
      in order. */
  lemma BelowMinimumGivesMinimum(val: string, maxIntegerDigits: nat, maxDecimalPlaces: nat,
                                 minValue: Option<int>, maxValue: Option<int>)
    requires var x := ParseFloat(TruncateNumeric(val, maxIntegerDigits, maxDecimalPlaces));
             minValue.Some? && x.Some? && x.value < minValue.value as real
    requires maxValue.Some? ==> minValue.value <= maxValue.value
    ensures FormatNumericInputWithLimits(val, maxIntegerDigits, maxDecimalPlaces, minValue, maxValue)
         == IntToString(minValue.value)
  {
    ParseFloatOfIntToString(minValue.value);
  }

  /** A truncated number above the upper bound becomes the upper bound, whatever the lower
      bound: a number raised to the lower bound is then above the upper one too. */
  lemma AboveMaximumGivesMaximum(val: string, maxIntegerDigits: nat, maxDecimalPlaces: nat,
                                 minValue: Option<int>, maxValue: Option<int>)
    requires var x := ParseFloat(TruncateNumeric(val, maxIntegerDigits, maxDecimalPlaces));
             maxValue.Some? && x.Some? && x.value > maxValue.value as real
    ensures FormatNumericInputWithLimits(val, maxIntegerDigits, maxDecimalPlaces, minValue, maxValue)
         == IntToString(maxValue.value)
  {
    var cut := TruncateNumeric(val, maxIntegerDigits, maxDecimalPlaces);
    ClampBelowReadsAsMaximum(cut, minValue);
  }

  /** With the bounds crossed, every number ends up as the upper bound, since that check runs last. */
  lemma CrossedBoundsGiveMaximum(val: string, maxIntegerDigits: nat, maxDecimalPlaces: nat, lo: int, hi: int)
    requires hi < lo
    requires ParseFloat(TruncateNumeric(val, maxIntegerDigits, maxDecimalPlaces)).Some?
    ensures FormatNumericInputWithLimits(val, maxIntegerDigits, maxDecimalPlaces, Some(lo), Some(hi)) == IntToString(hi)
  {
    ParseFloatOfIntToString(lo);
  }
}
