/**
 * `FieldValue`, the one-value editor, with its rendering stripped away: the text it shows for
 * its `value` prop, the choices its drop-down offers for SELECT and BOOLEAN fields, and the
 * value its change handler hands to `onUpdate` for the text the user entered or picked.
 */
module FieldValue {
  import opened Wrappers
  import opened Strings
  import opened Filters
  import opened DateUtils
  import opened JsValues
  import opened FieldValueUtils

  /** The props that take part in the logic. An absent `value` is `Undefined`; an absent
      `onUpdate` callback is `hasOnUpdate == false`. */
  datatype Props = Props(
    fieldType: FieldValueType,
    value: Value,
    minValue: Option<int>,
    maxValue: Option<int>,
    maxDecimalPlaces: Option<nat>,
    maxIntegerDigits: Option<nat>,
    placeholder: Option<string>,
    options: Option<seq<SelectOption>>,
    hasOnUpdate: bool)

  const DefaultMaxDecimalPlaces: nat := 2
  const DefaultMaxIntegerDigits: nat := 8

  /** The `value` prop after its default: `undefined` becomes `''` (a `null` is kept). */
  function ValueOrDefault(v: Value): (r: Value)
    ensures r != Undefined
    ensures v != Undefined ==> r == v
  {
    if v == Undefined then Str("") else v
  }

  /** `displayValue`: what the input or the drop-down shows. */
  function DisplayValue(p: Props): (r: Value)
    ensures p.value == Undefined || p.value == Null ==> r == if p.fieldType == BOOLEAN && p.value == Undefined then Str("false") else Str("")
    ensures p.value.Str? && p.fieldType != BOOLEAN ==> r == p.value
  {
    FormatFieldValueToString(p.fieldType, ValueOrDefault(p.value))
  }

  /** SELECT and BOOLEAN fields are edited with a drop-down, the others with a text input. */
  predicate UsesSelect(t: FieldValueType) {
    t == SELECT || t == BOOLEAN
  }

  /** The `<option>`s of the drop-down, as (value, label) pairs: for SELECT an empty
      placeholder entry and one entry per option key; for BOOLEAN `true`/`Sim` and
      `false`/`Não`; none for a field edited with a text input. */
  function Choices(p: Props): (r: seq<SelectOption>)
    ensures !UsesSelect(p.fieldType) <==> r == []
    ensures p.fieldType == BOOLEAN ==> |r| == 2 && r[0].key == "true" && r[1].key == "false"
    ensures p.fieldType == SELECT ==>
              var opts := p.options.GetOr([]);
              && |r| == |opts| + 1 && r[0].key == ""
              && forall i :: 0 <= i < |opts| ==> r[i + 1] == opts[i]
  {
    match p.fieldType
    case SELECT =>
      var caption := if p.placeholder.Some? && p.placeholder.value != "" then p.placeholder.value else "Selecione...";
      [SelectOption("", caption)] + p.options.GetOr([])
    case BOOLEAN => [SelectOption("true", "Sim"), SelectOption("false", "Não")]
    case _ => []
  }

  /** `handleChange`: the value handed to `onUpdate` for the entered text `raw`, or `None`
      when there is no `onUpdate` and nothing happens. */
  function HandleChange(p: Props, raw: string): (r: Option<Value>)
    ensures r.None? <==> !p.hasOnUpdate
    ensures r.Some? && p.fieldType == BOOLEAN ==> (r.value == Bool(true) <==> raw == "true") && r.value.Bool?
    ensures r.Some? && p.fieldType == DATE ==> r.value == DateObj(ParseDateStringToDate(raw))
    ensures r.Some? && (p.fieldType == STRING || p.fieldType == SELECT || p.fieldType == MONTH) ==> r.value == Str(raw)
    ensures r.Some? && p.fieldType == NUMBER ==>
              r.value == Str(FormatNumericInputWithLimits(raw,
                               p.maxIntegerDigits.GetOr(DefaultMaxIntegerDigits),
                               p.maxDecimalPlaces.GetOr(DefaultMaxDecimalPlaces),
                               p.minValue, p.maxValue))
  {
    if !p.hasOnUpdate then None
    else
      match p.fieldType
      case NUMBER =>
        Some(Str(FormatNumericInputWithLimits(raw,
                   p.maxIntegerDigits.GetOr(DefaultMaxIntegerDigits),
                   p.maxDecimalPlaces.GetOr(DefaultMaxDecimalPlaces),
                   p.minValue, p.maxValue)))
      case BOOLEAN => Some(Bool(raw == "true"))
      case DATE => Some(DateObj(ParseDateStringToDate(raw)))
      case _ => Some(Str(raw))
  }

  /** The editor after its owner stores the emitted value back into the `value` prop. */
  function WithValue(p: Props, v: Value): (q: Props)
    ensures q.value == v && q.fieldType == p.fieldType
  {
    p.(value := v)
  }

  /** A BOOLEAN drop-down always shows one of its two choices, whatever it is given other than `null`. */
  lemma BooleanDisplayIsAChoice(p: Props)
    requires p.fieldType == BOOLEAN && p.value != Null
    ensures DisplayValue(p) == Str(Choices(p)[0].key) || DisplayValue(p) == Str(Choices(p)[1].key)
  {
  }

  /** Picking a choice of a drop-down and storing the emitted value shows that choice again. */
  lemma PickedChoiceIsShown(p: Props, i: nat)
    requires UsesSelect(p.fieldType) && p.hasOnUpdate
    requires i < |Choices(p)|
    ensures var v := HandleChange(p, Choices(p)[i].key);
            v.Some? && DisplayValue(WithValue(p, v.value)) == Str(Choices(p)[i].key)
  {
    if p.fieldType == BOOLEAN {
      LowerAsciiOfTrue();
    }
  }

  /** Entering the canonical text of a calendar day (year 100 or later) emits that day and
      shows the same text again. */
  lemma DateEntryRoundTrip(p: Props, d: CalendarDate)
    requires p.fieldType == DATE && p.hasOnUpdate && d.year >= 100
    ensures var text := FormatDateToYMDString(Some(DateOf(d)));
            var v := HandleChange(p, text);
            v == Some(DateObj(DateOf(d))) && DisplayValue(WithValue(p, v.value)) == Str(text)
  {
    ParseFormatRoundTrip(d);
  }

  /** Entering `2024-3-5` in a DATE editor shows `2024-03-05`. */
  lemma LooseDateEntryIsShownCanonically(p: Props)
    requires p.fieldType == DATE && p.hasOnUpdate
    ensures var v := HandleChange(p, "2024-3-5");
            v.Some? && DisplayValue(WithValue(p, v.value)) == Str("2024-03-05")
  {
    DateEntryIsShownFormatted(p, "2024-3-5");
    LooseDateIsCanonicalised();
  }

  /** A DATE editor shows the entered text as the canonical form of the date it parses to. */
  lemma DateEntryIsShownFormatted(p: Props, raw: string)
    requires p.fieldType == DATE && p.hasOnUpdate
    ensures var v := HandleChange(p, raw);
            v.Some? && DisplayValue(WithValue(p, v.value)) == Str(FormatDateToYMDString(Some(ParseDateStringToDate(raw))))
  {
  }

  /** With no bounds and at least one decimal place, the text a NUMBER editor shows after an
      edit is emitted unchanged when entered again. */
  lemma NumberEntryIsStable(p: Props, raw: string)
    requires p.fieldType == NUMBER && p.hasOnUpdate
    requires p.minValue.None? && p.maxValue.None?
    requires p.maxDecimalPlaces.GetOr(DefaultMaxDecimalPlaces) > 0
    ensures var v := HandleChange(p, raw);
            v.Some? && v.value.Str? && HandleChange(p, v.value.s) == v
            && DisplayValue(WithValue(p, v.value)) == v.value
  {
    TruncationIsIdempotent(raw, p.maxIntegerDigits.GetOr(DefaultMaxIntegerDigits),
                           p.maxDecimalPlaces.GetOr(DefaultMaxDecimalPlaces));
  }

  /** With the default limits and no bounds, an emitted number has at most eight characters
      before the `.` and at most two after it. */
  lemma NumberEntryDefaultLimits(p: Props, raw: string)
    requires p.fieldType == NUMBER && p.hasOnUpdate
    requires p.minValue.None? && p.maxValue.None?
    requires p.maxIntegerDigits.None? && p.maxDecimalPlaces.None?
    ensures HandleChange(p, raw).Some? && HandleChange(p, raw).value.Str?
    ensures var pieces := Split(HandleChange(p, raw).value.s, '.');
            |pieces| <= 2 && |pieces[0]| <= 8 && (|pieces| == 2 ==> |pieces[1]| <= 2)
  {
    TruncatedPieces(raw, DefaultMaxIntegerDigits, DefaultMaxDecimalPlaces);
  }
}
