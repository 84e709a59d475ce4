/**
 * The untyped JavaScript values that the field editor and the filter builder pass around
 * (a pending search value, the `value` prop of an editor), with the two language rules the
 * library leans on: truthiness and `String(value)`.
 *
 * Numbers are restricted to integers; a `Date` object is a `DateUtils.JsDate`, Invalid Date
 * included; an object with a `key` is a select option.
 */
module JsValues {
  import opened Strings
  import opened Filters
  import opened DateUtils

  datatype Value =
    | Null
    | Undefined
    | Str(s: string)
    | Num(n: int)
    | Bool(b: bool)
    | DateObj(date: JsDate)
    | OptionObj(option: SelectOption)

  /** The values that `!value` turns into `true`. Every object, an Invalid Date included, is truthy. */
  predicate Falsy(v: Value)
    ensures Falsy(v) ==> !v.DateObj? && !v.OptionObj?
    ensures Falsy(v) ==> JsString(v) in {"", "0", "false", "null", "undefined"}
    ensures v.Str? ==> (Falsy(v) <==> v.s == "")
  {
    v == Null || v == Undefined || v == Str("") || v == Num(0) || v == Bool(false)
  }

  /** `String(value)`. */
  function JsString(v: Value): (s: string)
    ensures v.Str? ==> s == v.s
    ensures v.Bool? ==> (s == "true" <==> v.b) && (s == "false" <==> !v.b)
    ensures v.DateObj? ==> s != [] && 'A' <= s[0] <= 'Z'
  {
    match v
    case Null => "null"
    case Undefined => "undefined"
    case Str(s) => s
    case Num(n) => IntToString(n)
    case Bool(b) => if b then "true" else "false"
    case DateObj(d) => DateToString(d)
    case OptionObj(_) => "[object Object]"
  }
}
