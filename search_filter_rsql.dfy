/**
 * `SearchFilterRSQL`: the filter builder. The user picks a field, an operator and a value;
 * adding commits a `FilterDTO` to an ordered list and hands the owner the whole list as
 * one RSQL-style query string (clauses `field operator value` joined with `;`); removing
 * by position hands over the shortened query.
 */
module SearchFilterRSQL {
  import opened Wrappers
  import opened Strings
  import opened Filters
  import opened DateUtils
  import opened JsValues

  // ---------------------------------------------------------------------------
  // Look-ups
  // ---------------------------------------------------------------------------

  /** `fields.find(f => f.name === name)`: the first field with that name, if any. This
      and the look-ups `FindOption` and `Filters.FindOperator` are written out per record
      type: a generic search taking a lambda made the frame proofs of `FilterBuilder` slow. */
  function FindField(fields: seq<Field>, name: string): (r: Option<Field>)
    ensures r.Some? ==> r.value in fields && r.value.name == name
    ensures r.None? <==> forall i :: 0 <= i < |fields| ==> fields[i].name != name
  {
    if fields == [] then None
    else if fields[0].name == name then Some(fields[0])
    else FindField(fields[1..], name)
  }

  /** The field found for a name is the first one carrying it. */
  lemma {:induction false} FindFieldIsFirst(fields: seq<Field>, k: nat)
    requires k < |fields| && forall i :: 0 <= i < k ==> fields[i].name != fields[k].name
    ensures FindField(fields, fields[k].name) == Some(fields[k])
    decreases k
  {
    if k > 0 {
      assert fields[1..][k - 1] == fields[k];
      FindFieldIsFirst(fields[1..], k - 1);
    }
  }

  /** `options.find(opt => opt.key === key)`. */
  function FindOption(options: seq<SelectOption>, key: string): (r: Option<SelectOption>)
    ensures r.Some? ==> r.value in options && r.value.key == key
    ensures r.None? <==> forall i :: 0 <= i < |options| ==> options[i].key != key
  {
    if options == [] then None
    else if options[0].key == key then Some(options[0])
    else FindOption(options[1..], key)
  }

  // ---------------------------------------------------------------------------
  // buildRsqlString
  // ---------------------------------------------------------------------------

  /** The operator as written into a clause: `LIKE` is `=ilike=`, a symbol with an `=` is
      kept, any other symbol is wrapped in `=`. */
  function FormatOperator(symbol: string): (r: string)
    ensures '=' in r
    ensures symbol != "LIKE" && '=' in symbol ==> r == symbol
  {
    if symbol == "LIKE" then "=ilike="
    else if '=' !in symbol then "=" + symbol + "="
    else symbol
  }

  /** How each symbol of the operator tables is written; distinct symbols stay distinct. */
  lemma RenderedOperators()
    ensures FormatOperator("LIKE") == "=ilike="
    ensures FormatOperator("==") == "==" && FormatOperator("!=") == "!="
    ensures FormatOperator(">") == "=>=" && FormatOperator("<") == "=<="
    ensures FormatOperator(">=") == ">=" && FormatOperator("<=") == "<="
    ensures forall a, b :: a in Symbols && b in Symbols && a != b ==> FormatOperator(a) != FormatOperator(b)
  {
    assert '=' !in ">" && '=' !in "<" && '=' !in "LIKE";
    assert '=' in "==" && '=' in "!=" && '=' in ">=" && '=' in "<=";
  }

  /** One clause: field, written operator, value. */
  function Clause(f: FilterDTO): (r: string)
    ensures f.field <= r && |r| > |f.field| + |f.value|
  {
    f.field + FormatOperator(f.operator) + f.value
  }

  function Clauses(filters: seq<FilterDTO>): (r: seq<string>)
    ensures |r| == |filters|
    ensures forall i :: 0 <= i < |filters| ==> r[i] == Clause(filters[i])
  {
    if filters == [] then [] else [Clause(filters[0])] + Clauses(filters[1..])
  }

  /** `buildRsqlString`: the clauses in list order, joined with `;`. */
  function BuildRsqlString(filters: seq<FilterDTO>): (r: string)
  {
    Join(Clauses(filters), ';')
  }

  /** The empty list is the empty query, and every other list gives a non-empty one. */
  lemma {:induction false} EmptyQuery(filters: seq<FilterDTO>)
    ensures BuildRsqlString(filters) == "" <==> filters == []
  {
    if |filters| == 1 {
      assert Clauses(filters) == [Clause(filters[0])];
    } else if |filters| > 1 {
      assert Join(Clauses(filters), ';')[|Clause(filters[0])|] == ';';
    }
  }

  /** One more filter gives one more clause at the end. */
  lemma ClausesAppend(filters: seq<FilterDTO>, f: FilterDTO)
    ensures Clauses(filters + [f]) == Clauses(filters) + [Clause(f)]
  {
    var longer, expected := Clauses(filters + [f]), Clauses(filters) + [Clause(f)];
    forall i | 0 <= i < |longer|
      ensures longer[i] == expected[i]
    {
      assert (filters + [f])[i] == if i < |filters| then filters[i] else f;
    }
  }

  /** Appending a filter appends `;` and its clause (or is just its clause on an empty list). */
  lemma {:induction false} BuildAppend(filters: seq<FilterDTO>, f: FilterDTO)
    ensures BuildRsqlString(filters + [f]) ==
            if filters == [] then Clause(f) else BuildRsqlString(filters) + ";" + Clause(f)
  {
    ClausesAppend(filters, f);
    JoinAppend(Clauses(filters), Clause(f), ';');
    if filters != [] {
      assert Clauses(filters) != [];
    }
  }

  /** A clause built from parts without `;` has none either. */
  lemma ClauseWithoutSemicolon(f: FilterDTO)
    requires ';' !in f.field && ';' !in f.operator && ';' !in f.value
    ensures ';' !in Clause(f)
  {
    var op := FormatOperator(f.operator);
    assert ';' !in op by {
      assert ';' !in "=ilike=";
    }
    assert Clause(f) == f.field + op + f.value;
  }

  /** When no field name, operator or value holds a `;`, the query splits back into the
      clauses in list order. */
  lemma QuerySplitsIntoClauses(filters: seq<FilterDTO>)
    requires filters != []
    requires forall i :: 0 <= i < |filters| ==>
               ';' !in filters[i].field && ';' !in filters[i].operator && ';' !in filters[i].value
    ensures Split(BuildRsqlString(filters), ';') == Clauses(filters)
  {
    var cs := Clauses(filters);
    forall i | 0 <= i < |cs|
      ensures ';' !in cs[i]
    {
      ClauseWithoutSemicolon(filters[i]);
    }
    SplitJoin(cs, ';');
  }

  /** Values are not escaped: one filter whose value holds `;` and two separate filters can
      give the same query. */
  lemma UnescapedSemicolonCollides()
    ensures BuildRsqlString([FilterDTO("a", "==", "Igual", "1;b==2", STRING)])
         == BuildRsqlString([FilterDTO("a", "==", "Igual", "1", STRING), FilterDTO("b", "==", "Igual", "2", STRING)])
  {
    assert '=' in "==";
    BuildAppend([FilterDTO("a", "==", "Igual", "1", STRING)], FilterDTO("b", "==", "Igual", "2", STRING));
    assert [FilterDTO("a", "==", "Igual", "1", STRING)] + [FilterDTO("b", "==", "Igual", "2", STRING)]
        == [FilterDTO("a", "==", "Igual", "1", STRING), FilterDTO("b", "==", "Igual", "2", STRING)];
  }

  /** A one-filter list is just its clause. */
  lemma SingleQuery(f: FilterDTO)
    ensures BuildRsqlString([f]) == Clause(f)
  {
    assert Clauses([f]) == [Clause(f)];
  }

  /** Three single clauses. */
  lemma SingleClauseExamples()
    ensures BuildRsqlString([FilterDTO("age", ">", "Maior", "18", NUMBER)]) == "age=>=18"
    ensures BuildRsqlString([FilterDTO("name", "LIKE", "Contém", "ann", STRING)]) == "name=ilike=ann"
    ensures BuildRsqlString([FilterDTO("id", "==", "Igual", "5", NUMBER)]) == "id==5"
  {
    RenderedOperators();
    SingleQuery(FilterDTO("age", ">", "Maior", "18", NUMBER));
    SingleQuery(FilterDTO("name", "LIKE", "Contém", "ann", STRING));
    SingleQuery(FilterDTO("id", "==", "Igual", "5", NUMBER));
  }

  /** Two filters give their two clauses joined by `;`. */
  lemma TwoQuery(a: FilterDTO, b: FilterDTO)
    ensures BuildRsqlString([a, b]) == Clause(a) + ";" + Clause(b)
  {
    var parts := [Clause(a), Clause(b)];
    assert Clauses([a, b]) == parts;
    assert parts[1..] == [Clause(b)];
    assert Join(parts, ';') == Clause(a) + [';'] + Clause(b);
  }

  /** A two-clause query, in list order. */
  lemma TwoClauseExample()
    ensures BuildRsqlString([FilterDTO("age", ">", "Maior", "18", NUMBER), FilterDTO("name", "LIKE", "Contém", "ann", STRING)])
         == "age=>=18;name=ilike=ann"
  {
    var age := FilterDTO("age", ">", "Maior", "18", NUMBER);
    var name := FilterDTO("name", "LIKE", "Contém", "ann", STRING);
    TwoQuery(age, name);
    assert FormatOperator(">") == "=>=" && FormatOperator("LIKE") == "=ilike=";
  }

  // ---------------------------------------------------------------------------
  // isDuplicateFilter
  // ---------------------------------------------------------------------------

  /** Two filters with the same field, operator symbol and value. */
  predicate SameKey(a: FilterDTO, b: FilterDTO) {
    a.field == b.field && a.operator == b.operator && a.value == b.value
  }

  /** `isDuplicateFilter`: some committed filter has the same key. */
  function IsDuplicateFilter(filters: seq<FilterDTO>, f: FilterDTO): (r: bool)
    ensures r <==> exists i :: 0 <= i < |filters| && SameKey(filters[i], f)
  {
    if filters == [] then false
    else SameKey(filters[0], f) || IsDuplicateFilter(filters[1..], f)
  }

  predicate NoDuplicates(filters: seq<FilterDTO>) {
    forall i, j :: 0 <= i < j < |filters| ==> !SameKey(filters[i], filters[j])
  }

  /** Appending a filter that is no duplicate keeps the list free of duplicates. */
  lemma AppendKeepsNoDuplicates(filters: seq<FilterDTO>, f: FilterDTO)
    requires NoDuplicates(filters) && !IsDuplicateFilter(filters, f)
    ensures NoDuplicates(filters + [f])
  {
    var g := filters + [f];
    forall i, j | 0 <= i < j < |g|
      ensures !SameKey(g[i], g[j])
    {
      if j == |filters| {
        assert g[i] == filters[i];
      }
    }
  }

  // ---------------------------------------------------------------------------
  // handleRemove's filter by position
  // ---------------------------------------------------------------------------

  /** `s.filter((_, i) => i !== index)` over the elements from position `offset` on. */
  function WithoutPosition(s: seq<FilterDTO>, index: int, offset: int): (r: seq<FilterDTO>)
    ensures offset <= index < offset + |s| ==> r == s[..index - offset] + s[index - offset + 1..]
    ensures !(offset <= index < offset + |s|) ==> r == s
    decreases |s|
  {
    if s == [] then []
    else
      var rest := WithoutPosition(s[1..], index, offset + 1);
      if offset == index then
        assert rest == s[1..];
        rest
      else
        assert [s[0]] + s[1..] == s;
        [s[0]] + rest
  }

  /** `filters.filter((_, i) => i !== index)`. */
  function WithoutIndex(filters: seq<FilterDTO>, index: int): (r: seq<FilterDTO>)
    ensures 0 <= index < |filters| ==> r == filters[..index] + filters[index + 1..] && |r| == |filters| - 1
    ensures !(0 <= index < |filters|) ==> r == filters
  {
    WithoutPosition(filters, index, 0)
  }

  /** Where the `k`-th element of a list with one position cut out came from. */
  lemma RemovedElement(s: seq<FilterDTO>, index: nat, k: nat)
    requires index < |s| && k < |s| - 1
    ensures (s[..index] + s[index + 1..])[k] == s[if k < index then k else k + 1]
  {
  }

  /** Removing a position keeps the list free of duplicates. */
  lemma RemovalKeepsNoDuplicates(filters: seq<FilterDTO>, index: int)
    requires NoDuplicates(filters)
    ensures NoDuplicates(WithoutIndex(filters, index))
  {
    if 0 <= index < |filters| {
      var g := WithoutIndex(filters, index);
      forall i, j | 0 <= i < j < |g|
        ensures !SameKey(g[i], g[j])
      {
        RemovedElement(filters, index, i);
        RemovedElement(filters, index, j);
      }
    }
  }

  /** Removing the middle of three filters keeps the outer two in order. */
  lemma RemoveMiddle(a: FilterDTO, b: FilterDTO, c: FilterDTO)
    ensures WithoutIndex([a, b, c], 1) == [a, c]
    ensures BuildRsqlString(WithoutIndex([a, b, c], 1)) == Clause(a) + ";" + Clause(c)
  {
    assert [a, b, c][..1] + [a, b, c][2..] == [a, c];
    BuildAppend([a], c);
    assert [a] + [c] == [a, c];
  }

  // ---------------------------------------------------------------------------
  // formatDate
  // ---------------------------------------------------------------------------

  /** `formatDate`: a `Date` is formatted; anything else goes through `parseDateStringToDate`,
      whose `split` throws for a value that is not a string. The `''` branch of the source is
      never taken, since every `Date` object is truthy. */
  function FormatDate(v: Value): (r: Completion<string>)
    ensures r.Throw? <==> !(v.DateObj? || v.Str?)
    ensures v.DateObj? ==> r == Normal(FormatDateToYMDString(Some(v.date)))
    ensures v.Str? ==> r == Normal(FormatDateToYMDString(Some(ParseDateStringToDate(v.s))))
  {
    match v
    case DateObj(d) => Normal(FormatDateToYMDString(Some(d)))
    case Str(s) => Normal(FormatDateToYMDString(Some(ParseDateStringToDate(s))))
    case _ => Throw
  }

  /** The canonical text of a day is committed as itself. */
  lemma FormatDateOfCanonicalText(d: CalendarDate)
    requires d.year >= 100
    ensures var text := FormatDateToYMDString(Some(DateOf(d)));
            FormatDate(Str(text)) == Normal(text)
  {
    ParseFormatRoundTrip(d);
  }

  /** Loose text is committed in canonical form. */
  lemma FormatDateOfLooseText()
    ensures FormatDate(Str("2024-3-5")) == Normal("2024-03-05")
  {
    LooseDateIsCanonicalised();
  }

  /** So is the `Date` the DATE editor emits for it. */
  lemma FormatDateOfLooseEntry()
    ensures FormatDate(DateObj(ParseDateStringToDate("2024-3-5"))) == Normal("2024-03-05")
  {
    LooseDateIsCanonicalised();
  }

  // ---------------------------------------------------------------------------
  // getFormattedValue
  // ---------------------------------------------------------------------------

  /** `getFormattedValue`: the value shown on a committed filter's chip. `simNao` is the
      library's `formatBooleanToSimNao`, which is not part of this model. */
  function GetFormattedValue(fields: seq<Field>, f: FilterDTO, simNao: string -> string): (r: string)
    ensures FindField(fields, f.field).None? ==> r == f.value
    ensures FindField(fields, f.field).Some? && f.fieldType == BOOLEAN ==> r == simNao(f.value)
    ensures FindField(fields, f.field).Some? && f.fieldType == DATE ==> r == FormatIsoDateToBrDate(f.value)
    ensures f.fieldType in {STRING, NUMBER, MONTH} ==> r == f.value
  {
    var field := FindField(fields, f.field);
    if field.None? then f.value
    else
      match f.fieldType
      case BOOLEAN => simNao(f.value)
      case SELECT =>
        if field.value.SelectField? then
          var option := FindOption(field.value.options, f.value);
          if option.Some? && option.value.value != "" then option.value.value else f.value
        else f.value
      case DATE => FormatIsoDateToBrDate(f.value)
      case _ => f.value
  }

  /** A SELECT chip shows the label of the first option with the committed key, or the key
      itself when that label is empty. */
  lemma SelectChipShowsLabel(fields: seq<Field>, f: FilterDTO, simNao: string -> string, k: nat)
    requires f.fieldType == SELECT
    requires FindField(fields, f.field).Some? && FindField(fields, f.field).value.SelectField?
    requires var options := FindField(fields, f.field).value.options;
             k < |options| && options[k].key == f.value
             && forall i :: 0 <= i < k ==> options[i].key != f.value
    ensures var caption := FindField(fields, f.field).value.options[k].value;
            GetFormattedValue(fields, f, simNao) == if caption != "" then caption else f.value
  {
    var options := FindField(fields, f.field).value.options;
    FindOptionIsFirst(options, k);
  }

  /** A SELECT chip whose key no option carries shows the key itself. */
  lemma SelectChipWithoutOptionShowsKey(fields: seq<Field>, f: FilterDTO, simNao: string -> string)
    requires f.fieldType == SELECT
    requires FindField(fields, f.field).Some? && FindField(fields, f.field).value.SelectField?
    requires var options := FindField(fields, f.field).value.options;
             forall i :: 0 <= i < |options| ==> options[i].key != f.value
    ensures GetFormattedValue(fields, f, simNao) == f.value
  {
  }

  lemma {:induction false} FindOptionIsFirst(options: seq<SelectOption>, k: nat)
    requires k < |options| && forall i :: 0 <= i < k ==> options[i].key != options[k].key
    ensures FindOption(options, options[k].key) == Some(options[k])
    decreases k
  {
    if k > 0 {
      assert options[1..][k - 1] == options[k];
      FindOptionIsFirst(options[1..], k - 1);
    }
  }

  /** A DATE chip of a committed canonical day shows it as `DD/MM/YYYY`. */
  lemma DateChipShowsBrazilianDate(fields: seq<Field>, f: FilterDTO, simNao: string -> string, d: CalendarDate)
    requires f.fieldType == DATE && FindField(fields, f.field).Some? && d.year >= 0
    requires f.value == FormatDateToYMDString(Some(DateOf(d)))
    ensures GetFormattedValue(fields, f, simNao)
         == Pad2(NatToString(d.day)) + "/" + Pad2(NatToString(d.monthIndex + 1)) + "/" + NatToString(d.year)
  {
    BrDateOfFormattedDate(d);
  }

  // ---------------------------------------------------------------------------
  // isAddButtonDisabled
  // ---------------------------------------------------------------------------

  /** `isAddButtonDisabled`, as written: for a DATE field the pending value goes through
      `String(...)` before it is parsed. */
  function IsAddButtonDisabled(field: Option<Field>, operator: Option<Operator>, v: Value): (r: bool)
    ensures field.None? || operator.None? ==> r
    ensures field.Some? && operator.Some? && field.value.Type() != DATE ==> (r <==> v == Null || v == Str(""))
    ensures field.Some? && operator.Some? && field.value.Type() == DATE ==>
              (r <==> Falsy(v) || ParseDateStringToDate(JsString(v)).InvalidDate?)
  {
    if field.None? || operator.None? then true
    else if field.value.Type() == DATE then
      Falsy(v) || ParseDateStringToDate(JsString(v)).InvalidDate?
    else v == Null || v == Str("")
  }

  /** A DATE value picked in the editor is a `Date` object, and `String` of a `Date` never
      parses back: the button stays disabled for it, valid day or not. */
  lemma AddDisabledForEveryDateObject(field: Field, operator: Operator, d: JsDate)
    requires field.Type() == DATE
    ensures IsAddButtonDisabled(Some(field), Some(operator), DateObj(d))
  {
    DateStringIsNoDate(d);
  }

  /** The text default a DATE field receives (today's canonical date) does enable the button. */
  lemma DefaultDateEnablesAdd(field: Field, operator: Operator, today: CalendarDate)
    requires field.Type() == DATE && today.year >= 100
    ensures !IsAddButtonDisabled(Some(field), Some(operator), Str(FormatDateToYMDString(Some(DateOf(today)))))
  {
    var text := FormatDateToYMDString(Some(DateOf(today)));
    ParseFormatRoundTrip(today);
    assert text != "" && !Falsy(Str(text));
    assert JsString(Str(text)) == text;
    assert ParseDateStringToDate(text).DateOf?;
  }

  /** `isAddButtonDisabled` with a `Date` judged by itself and text parsed as before. */
  function IsAddButtonDisabledIntended(field: Option<Field>, operator: Option<Operator>, v: Value): (r: bool)
    ensures field.None? || operator.None? ==> r
    ensures field.Some? && operator.Some? && field.value.Type() != DATE ==> (r <==> v == Null || v == Str(""))
    ensures field.Some? && operator.Some? && field.value.Type() == DATE && v.DateObj? ==> (r <==> v.date.InvalidDate?)
    ensures field.Some? && operator.Some? && field.value.Type() == DATE && v.Str? ==>
              (r <==> v.s == "" || ParseDateStringToDate(v.s).InvalidDate?)
    ensures field.Some? && operator.Some? && field.value.Type() == DATE && !v.DateObj? ==>
              (r <==> Falsy(v) || ParseDateStringToDate(JsString(v)).InvalidDate?)
  {
    if field.None? || operator.None? then true
    else if field.value.Type() == DATE then
      if v.DateObj? then v.date.InvalidDate?
      else Falsy(v) || ParseDateStringToDate(JsString(v)).InvalidDate?
    else v == Null || v == Str("")
  }

  /** `String` of a value that is neither text nor a `Date` never parses to a date: it has
      no `-`, or (a negative number) only a leading one. */
  lemma NonTextIsNoDate(v: Value)
    requires !v.Str? && !v.DateObj?
    ensures ParseDateStringToDate(JsString(v)).InvalidDate?
  {
    match v
    case Num(n) =>
      if n >= 0 {
        DigitsHaveNo(IntToString(n), '-');
        SplitWithoutSeparator(IntToString(n), '-');
      } else {
        var digits := IntToString(n)[1..];
        assert IntToString(n) == [] + ['-'] + digits;
        DigitsHaveNo(NatToString(-n), '-');
        assert digits == NatToString(-n);
        SplitAtSeparator([], digits, '-');
        SplitWithoutSeparator(digits, '-');
      }
    case Bool(b) =>
      assert '-' !in "true" && '-' !in "false";
      SplitWithoutSeparator(JsString(v), '-');
    case OptionObj(_) =>
      assert '-' !in "[object Object]";
      SplitWithoutSeparator(JsString(v), '-');
    case Null =>
      assert '-' !in "null";
      SplitWithoutSeparator(JsString(v), '-');
    case Undefined =>
      assert '-' !in "undefined";
      SplitWithoutSeparator(JsString(v), '-');
  }

  /** With the intended check, an enabled button for a DATE field means the add commits the
      canonical text of a valid day, one that reads back as that day when its year is 100 or
      later. */
  lemma IntendedDateCheckAgreesWithAdd(field: Field, operator: Operator, v: Value)
    requires field.Type() == DATE
    requires !IsAddButtonDisabledIntended(Some(field), Some(operator), v)
    ensures v.Str? || v.DateObj?
    ensures var d := if v.DateObj? then v.date else ParseDateStringToDate(v.s);
            && d.DateOf?
            && FormatDate(v) == Normal(FormatDateToYMDString(Some(d)))
            && (d.date.year >= 100 ==> ParseDateStringToDate(FormatDate(v).value) == d)
  {
    if !v.Str? && !v.DateObj? {
      NonTextIsNoDate(v);
    } else {
      var d := if v.DateObj? then v.date else ParseDateStringToDate(v.s);
      if d.date.year >= 100 {
        ParseFormatRoundTrip(d.date);
      }
    }
  }

  /** The filter `handleAdd` builds from a selection, if its guard passes and formatting
      the value does not throw: DATE values through `formatDate`, all others through `String`. */
  function NewFilter(field: Option<Field>, operator: Option<Operator>, v: Value): (r: Option<FilterDTO>)
    ensures r.Some? ==> field.Some? && operator.Some? && v != Null
    ensures r.Some? ==> r.value.field == field.value.name && r.value.operator == operator.value.symbol
                        && r.value.operadorDescr == operator.value.name
                        && r.value.fieldType == field.value.Type()
    ensures field.Some? && operator.Some? && v != Null && field.value.Type() != DATE ==>
              r.Some? && r.value.value == JsString(v)
    ensures field.Some? && operator.Some? && v != Null && field.value.Type() == DATE ==>
              (r.Some? <==> FormatDate(v).Normal?) && (r.Some? ==> r.value.value == FormatDate(v).value)
  {
    if field.None? || operator.None? || v == Null then None
    else
      var formatted := if field.value.Type() == DATE then FormatDate(v) else Normal(JsString(v));
      if formatted.Throw? then None
      else Some(FilterDTO(field.value.name, operator.value.symbol, operator.value.name, formatted.value, field.value.Type()))
  }

  /** Whenever the intended check enables the button, `handleAdd` builds a filter. */
  lemma EnabledButtonBuildsFilter(field: Option<Field>, operator: Option<Operator>, v: Value)
    requires !IsAddButtonDisabledIntended(field, operator, v)
    ensures NewFilter(field, operator, v).Some?
  {
    if field.value.Type() == DATE {
      IntendedDateCheckAgreesWithAdd(field.value, operator.value, v);
      assert FormatDate(v).Normal?;
      assert v != Null;
    } else {
      assert v != Null;
    }
  }

  /** Both checks let an add through only when `handleAdd`'s own guard passes. */
  lemma EnabledButtonPassesAddGuard(field: Option<Field>, operator: Option<Operator>, v: Value)
    requires !IsAddButtonDisabled(field, operator, v) || !IsAddButtonDisabledIntended(field, operator, v)
    ensures field.Some? && operator.Some? && v != Null
  {
  }

  /** The value the effect on `[selectedField]` leaves: with a field selected and no truthy
      value, today's date for DATE fields and `'true'` for BOOLEAN fields; otherwise the
      value as it was. */
  function DefaultValue(selected: Option<Field>, v: Value, today: CalendarDate): (r: Value)
    ensures !Falsy(v) || selected.None? ==> r == v
    ensures Falsy(v) && selected.Some? && selected.value.Type() == DATE ==>
              r == Str(FormatDateToYMDString(Some(DateOf(today)))) && !Falsy(r)
    ensures Falsy(v) && selected.Some? && selected.value.Type() == BOOLEAN ==> r == Str("true") && !Falsy(r)
    ensures selected.Some? && selected.value.Type() != DATE && selected.value.Type() != BOOLEAN ==> r == v
  {
    if Falsy(v) && selected.Some? && selected.value.Type() == DATE then
      Str(FormatDateToYMDString(Some(DateOf(today))))
    else if Falsy(v) && selected.Some? && selected.value.Type() == BOOLEAN then Str("true")
    else v
  }

  /** Running the effect again changes nothing: the value it fills in is truthy. */
  lemma DefaultValueIsIdempotent(selected: Option<Field>, v: Value, today: CalendarDate)
    ensures var w := DefaultValue(selected, v, today);
            DefaultValue(selected, w, today) == w
  {
  }

  /** The last query handed over, if any, is the query of `filters`. */
  ghost predicate LogEndsWithQuery(searches: seq<string>, filters: seq<FilterDTO>) {
    searches != [] ==> searches[|searches| - 1] == BuildRsqlString(filters)
  }

  // ---------------------------------------------------------------------------
  // The builder's state
  // ---------------------------------------------------------------------------

  /** The component's four state cells over a fixed field list; `searches` records every
      query handed to `onSearch`, in order. */
  class FilterBuilder {
    const fields: seq<Field>
    var selectedField: Option<Field>
    var selectedOperator: Option<Operator>
    var searchValue: Value
    var filters: seq<FilterDTO>
    ghost var searches: seq<string>

    /** An operator is selected exactly when a field is, and it is one of that field's kind;
        the committed list holds no duplicates; the last query handed out describes it. */
    ghost predicate Valid()
      reads this
    {
      && (selectedField.Some? ==> selectedField.value in fields)
      && (selectedOperator.Some? <==> selectedField.Some?)
      && (selectedOperator.Some? ==> selectedOperator.value in Operators(selectedField.value.Type()))
      && NoDuplicates(filters)
      && (searches == [] ==> filters == [])
      && LogEndsWithQuery(searches, filters)
    }

    constructor (fields: seq<Field>)
      ensures Valid() && this.fields == fields
      ensures selectedField == None && selectedOperator == None && searchValue == Null
      ensures filters == [] && searches == []
    {
      this.fields := fields;
      selectedField := None;
      selectedOperator := None;
      searchValue := Null;
      filters := [];
      searches := [];
    }

    /** `resetState`: clear the selection; the committed list is untouched. */
    method ResetState()
      requires Valid()
      modifies this
      ensures Valid()
      ensures selectedField == None && selectedOperator == None && searchValue == Null
      ensures filters == old(filters) && searches == old(searches)
    {
      selectedField := None;
      selectedOperator := None;
      searchValue := Null;
    }

    /** `handleFieldChange`: a known name selects that field with its kind's default
        operator and no value; an unknown one clears the selection. */
    method HandleFieldChange(name: string)
      requires Valid()
      modifies this
      ensures Valid()
      ensures var found := FindField(fields, name);
              && (found.None? ==> selectedField == None && selectedOperator == None)
              && (found.Some? ==> selectedField == found
                                  && selectedOperator == Some(Operators(found.value.Type())[0]))
      ensures searchValue == Null
      ensures filters == old(filters) && searches == old(searches)
    {
      var found := FindField(fields, name);
      if found.None? {
        ResetState();
        return;
      }
      selectedField := found;
      selectedOperator := Some(Operators(found.value.Type())[0]);
      searchValue := Null;
    }

    /** The effect on `[selectedField]`: with a field selected and no truthy value, DATE
        fields get today's date and BOOLEAN fields `'true'`. */
    method ApplyDefaultValue(today: CalendarDate)
      requires Valid()
      modifies this
      ensures Valid()
      ensures searchValue == DefaultValue(old(selectedField), old(searchValue), today)
      ensures selectedField == old(selectedField) && selectedOperator == old(selectedOperator)
      ensures filters == old(filters) && searches == old(searches)
    {
      searchValue := DefaultValue(selectedField, searchValue, today);
    }

    /** Picking a field in the field drop-down: the change handler, then the effect, which
        React runs only when the selected field differs from the one before. */
    method SelectField(name: string, today: CalendarDate)
      requires Valid()
      modifies this
      ensures Valid()
      ensures var found := FindField(fields, name);
              && selectedField == found
              && (found.Some? ==> selectedOperator == Some(Operators(found.value.Type())[0]))
              && searchValue == (if found.Some? && found != old(selectedField) && found.value.Type() == DATE
                                 then Str(FormatDateToYMDString(Some(DateOf(today))))
                                 else if found.Some? && found != old(selectedField) && found.value.Type() == BOOLEAN
                                 then Str("true")
                                 else Null)
      ensures filters == old(filters) && searches == old(searches)
    {
      var before := selectedField;
      HandleFieldChange(name);
      if selectedField != before {
        ApplyDefaultValue(today);
      }
    }

    /** The operator drop-down's `onUpdate`: accept the name only if the selected field's
        kind offers an operator with it. */
    method HandleOperatorChange(name: string)
      requires Valid()
      modifies this
      ensures Valid()
      ensures selectedField.None? ==> selectedOperator == old(selectedOperator)
      ensures selectedField.Some? ==>
                var op := FindOperator(Operators(selectedField.value.Type()), name);
                selectedOperator == if op.Some? then op else old(selectedOperator)
      ensures selectedField == old(selectedField) && searchValue == old(searchValue)
      ensures filters == old(filters) && searches == old(searches)
    {
      if selectedField.Some? {
        var op := FindOperator(Operators(selectedField.value.Type()), name);
        if op.Some? {
          selectedOperator := op;
        }
      }
    }

    /** The value editor's `onUpdate` stores whatever it emits. */
    method SetSearchValue(v: Value)
      requires Valid()
      modifies this
      ensures Valid()
      ensures searchValue == v
      ensures selectedField == old(selectedField) && selectedOperator == old(selectedOperator)
      ensures filters == old(filters) && searches == old(searches)
    {
      searchValue := v;
    }

    /** The filter `handleAdd` would build from the current selection. */
    function PendingFilter(): (r: Option<FilterDTO>)
      reads this
      ensures r == NewFilter(selectedField, selectedOperator, searchValue)
    {
      NewFilter(selectedField, selectedOperator, searchValue)
    }

    /** `handleAdd`. Nothing changes when the guard fails or formatting throws; a duplicate
        only clears the selection; otherwise the filter is appended, the new query is handed
        to `onSearch`, and the selection is cleared. */
    method HandleAdd()
      requires Valid()
      modifies this
      ensures Valid()
      ensures var f := old(PendingFilter());
              && (f.None? ==> selectedField == old(selectedField) && selectedOperator == old(selectedOperator)
                              && searchValue == old(searchValue) && filters == old(filters) && searches == old(searches))
              && (f.Some? ==> selectedField == None && selectedOperator == None && searchValue == Null)
              && (f.Some? && IsDuplicateFilter(old(filters), f.value) ==>
                    filters == old(filters) && searches == old(searches))
              && (f.Some? && !IsDuplicateFilter(old(filters), f.value) ==>
                    filters == old(filters) + [f.value]
                    && searches == old(searches) + [BuildRsqlString(filters)])
    {
      var f := PendingFilter();
      if f.None? {
        return;
      }
      if IsDuplicateFilter(filters, f.value) {
        ResetState();
        return;
      }
      AppendKeepsNoDuplicates(filters, f.value);
      filters := filters + [f.value];
      searches := searches + [BuildRsqlString(filters)];
      ResetState();
    }

    /** A click on the add button, which reaches `handleAdd` only while the button is
        enabled. Judged with the intended check, every such click builds a filter: a new
        one is appended and its query handed to `onSearch`, a duplicate leaves the list and
        the log alone, and either way the selection is cleared. */
    method ClickAddButton()
      requires Valid()
      modifies this
      ensures Valid()
      ensures old(IsAddButtonDisabledIntended(selectedField, selectedOperator, searchValue)) ==>
                selectedField == old(selectedField) && selectedOperator == old(selectedOperator)
                && searchValue == old(searchValue) && filters == old(filters) && searches == old(searches)
      ensures !old(IsAddButtonDisabledIntended(selectedField, selectedOperator, searchValue)) ==>
                old(PendingFilter()).Some? && selectedField == None && selectedOperator == None && searchValue == Null
      ensures !old(IsAddButtonDisabledIntended(selectedField, selectedOperator, searchValue)) ==>
                var f := old(PendingFilter()).value;
                && (IsDuplicateFilter(old(filters), f) ==> filters == old(filters) && searches == old(searches))
                && (!IsDuplicateFilter(old(filters), f) ==>
                      filters == old(filters) + [f] && searches == old(searches) + [BuildRsqlString(filters)])
    {
      if !IsAddButtonDisabledIntended(selectedField, selectedOperator, searchValue) {
        EnabledButtonBuildsFilter(selectedField, selectedOperator, searchValue);
        HandleAdd();
      }
    }

    /** `handleRemove`: drop position `index` (nothing, when it is out of range) and hand the
        resulting query to `onSearch` either way. */
    method HandleRemove(index: int)
      requires Valid()
      modifies this
      ensures Valid()
      ensures filters == WithoutIndex(old(filters), index)
      ensures searches == old(searches) + [BuildRsqlString(filters)]
      ensures selectedField == old(selectedField) && selectedOperator == old(selectedOperator)
      ensures searchValue == old(searchValue)
    {
      RemovalKeepsNoDuplicates(filters, index);
      filters := WithoutIndex(filters, index);
      searches := searches + [BuildRsqlString(filters)];
    }
  }
}
