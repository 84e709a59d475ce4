/**
 * The filter vocabulary of the library: field kinds, the fields a caller offers for
 * filtering, the comparison operators allowed for each kind, and the committed filter
 * record (`FilterDTO`). The kind and option types are declared in src/types/FieldValue.ts
 * and imported by src/types/Filters.ts; both live here.
 */
module Filters {
  import opened Wrappers

  /** The closed set of value kinds a field editor understands (`FieldValueType`). */
  datatype FieldValueType = STRING | NUMBER | BOOLEAN | DATE | MONTH | SELECT

  /** An option of a SELECT field: `key` goes on the wire, `value` is the label shown. */
  datatype SelectOption = SelectOption(key: string, value: string)

  /** A comparison operator: a label shown to the user and the symbol written into the query. */
  datatype Operator = Operator(name: string, symbol: string)

  /** A filterable field; only the SELECT variant carries options. `fieldLabel` is the
      source's `label` (a reserved word here). */
  datatype Field =
    | SelectField(name: string, fieldLabel: string, options: seq<SelectOption>)
    | NumberField(name: string, fieldLabel: string)
    | StringField(name: string, fieldLabel: string)
    | DateField(name: string, fieldLabel: string)
    | BooleanField(name: string, fieldLabel: string)
  {
    /** The fixed type tag of each variant. No field variant has the MONTH kind, and the
        SELECT tag belongs exactly to the variant with options. */
    function Type(): (t: FieldValueType)
      ensures t != MONTH
      ensures t == SELECT <==> SelectField?
      ensures t == NUMBER <==> NumberField?
      ensures t == STRING <==> StringField?
      ensures t == DATE <==> DateField?
      ensures t == BOOLEAN <==> BooleanField?
    {
      match this
      case SelectField(_, _, _) => SELECT
      case NumberField(_, _) => NUMBER
      case StringField(_, _) => STRING
      case DateField(_, _) => DATE
      case BooleanField(_, _) => BOOLEAN
    }
  }

  /** A committed filter. `fieldType` is the source's `type` property (a reserved word here). */
  datatype FilterDTO = FilterDTO(field: string, operator: string, operadorDescr: string, value: string, fieldType: FieldValueType)

  const StringOperators: seq<Operator> := [
    Operator("Contém", "LIKE"),
    Operator("Igual", "=="),
    Operator("Diferente", "!=")
  ]

  const NumberOperators: seq<Operator> := [
    Operator("Igual", "=="),
    Operator("Diferente", "!="),
    Operator("Maior", ">"),
    Operator("Menor", "<"),
    Operator("Maior ou igual", ">="),
    Operator("Menor ou igual", "<=")
  ]

  /** A copy of the number operators (`[...NUMBER_OPERATORS]`). */
  const DateOperators: seq<Operator> := NumberOperators[..]

  const SelectOperators: seq<Operator> := [
    Operator("Igual", "=="),
    Operator("Diferente", "!=")
  ]

  const BooleanOperators: seq<Operator> := [
    Operator("Igual", "==")
  ]

  /** The wire symbols that occur in the operator tables. */
  const Symbols: set<string> := {"LIKE", "==", "!=", ">", "<", ">=", "<="}

  const Contains: Operator := Operator("Contém", "LIKE")
  const Equal: Operator := Operator("Igual", "==")

  /** No two operators of a list share a name, so a lookup by name finds at most one. */
  predicate UniqueNames(ops: seq<Operator>) {
    forall i, j :: 0 <= i < j < |ops| ==> ops[i].name != ops[j].name
  }

  /** The `OPERATORS` record: the operator list of each kind, in the order offered to the
      user. Every list is non-empty, its first entry is the default (Contém/LIKE for
      STRING, Igual/== for every other kind), names are unique within it, every symbol
      is one of `Symbols`, BOOLEAN offers only `==`, SELECT only `==` and `!=`, and
      DATE and MONTH offer exactly NUMBER's operators. */
  function Operators(t: FieldValueType): (ops: seq<Operator>)
    ensures |ops| > 0
    ensures ops[0] == if t == STRING then Contains else Equal
    ensures UniqueNames(ops)
    ensures forall i :: 0 <= i < |ops| ==> ops[i].symbol in Symbols
    ensures t == BOOLEAN ==> forall i :: 0 <= i < |ops| ==> ops[i].symbol == "=="
    ensures t == SELECT ==> forall i :: 0 <= i < |ops| ==> ops[i].symbol == "==" || ops[i].symbol == "!="
    ensures t == DATE || t == MONTH ==> ops == NumberOperators
  {
    match t
    case STRING => StringOperators
    case NUMBER => NumberOperators
    case DATE => DateOperators
    case SELECT => SelectOperators
    case BOOLEAN => BooleanOperators
    case MONTH => NumberOperators
  }

  /** `ops.find(o => o.name === name)`: the first operator with that name, if any. */
  function FindOperator(ops: seq<Operator>, name: string): (r: Option<Operator>)
    ensures r.Some? ==> r.value in ops && r.value.name == name
    ensures r.None? <==> forall i :: 0 <= i < |ops| ==> ops[i].name != name
  {
    if ops == [] then None
    else if ops[0].name == name then Some(ops[0])
    else FindOperator(ops[1..], name)
  }

  /** With unique names, looking an operator of the list up by its own name finds that operator. */
  lemma {:induction false} FindOperatorByOwnName(ops: seq<Operator>, k: nat)
    requires UniqueNames(ops) && k < |ops|
    ensures FindOperator(ops, ops[k].name) == Some(ops[k])
    decreases k
  {
    if k > 0 {
      assert ops[0].name != ops[k].name;
      assert ops[1..][k - 1] == ops[k];
      FindOperatorByOwnName(ops[1..], k - 1);
    }
  }
}
