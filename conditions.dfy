/**
 * Row values and the `hidden`/`disabled` conditions of rows and sections.
 *
 * A condition is evaluated against the form's tag-to-value table (`tagToValues`, where
 * NSNull stands for a row whose value is nil). Both forms of condition are kept: a
 * `Function` with the tags it declares it depends on, and a `Predicate` with the variables
 * its format string mentions. The predicate language and the callback bodies are not
 * modelled: each condition carries its evaluation as a function of the table.
 */
module Conditions {
  import opened Wrappers

  /** The payload of a typed row (`RowOf<T>.value`), one constructor per value type. */
  datatype Value = Text(text: string) | Number(number: int) | Flag(flag: bool)

  /** The type parameter `T` of a `RowOf<T>`. */
  datatype ValueKind = TextKind | NumberKind | FlagKind

  function KindOf(v: Value): ValueKind {
    match v
    case Text(_) => TextKind
    case Number(_) => NumberKind
    case Flag(_) => FlagKind
  }

  /**
   * `newValue as? T`, the conversion of `baseValue`'s setter (Row.swift:40): a value of the
   * row's type goes through, anything else (and nil) becomes nil.
   */
  function Cast(kind: ValueKind, v: Option<Value>): (r: Option<Value>)
    ensures r.Some? <==> (v.Some? && KindOf(v.value) == kind)
    ensures r.Some? ==> r == v
  {
    if v.Some? && KindOf(v.value) == kind then v else None
  }

  /** Casting twice is casting once, and a value of the row's type is kept as it is. */
  lemma CastIdempotent(kind: ValueKind, v: Option<Value>)
    ensures Cast(kind, Cast(kind, v)) == Cast(kind, v)
    ensures v.Some? && KindOf(v.value) == kind ==> Cast(kind, v) == v
  {
  }

  /** `tagToValues` / the predicate substitution variables: tag to value, None for NSNull. */
  type Table = map<string, Option<Value>>

  /** `ConditionType`: which cache of the observer a change re-evaluates. */
  datatype ConditionType = Hidden | Disabled

  /** `Condition`: a callback with its declared dependencies, or a predicate with its variables. */
  datatype Condition =
    | Function(tags: seq<string>, callback: Table -> bool)
    | Predicate(predicateVars: seq<string>, evaluate: Table -> bool)

  /** The tags whose changes re-evaluate the condition (`addToRowObservers`). */
  function DependencyTags(c: Condition): seq<string> {
    match c
    case Function(tags, _) => tags
    case Predicate(vars, _) => vars
  }

  /** What `callback(form)` / `predicate.evaluateWithObject(_:substitutionVariables:)` returns. */
  function Evaluate(c: Condition, table: Table): bool {
    match c
    case Function(_, callback) => callback(table)
    case Predicate(_, evaluate) => evaluate(table)
  }

  /**
   * `Condition(booleanLiteral:)`: a function condition with no dependencies whose value is
   * the literal whatever the form holds.
   */
  function BooleanLiteral(b: bool): (c: Condition)
    ensures c.Function? && DependencyTags(c) == []
    ensures forall table :: Evaluate(c, table) == b
  {
    Function([], _ => b)
  }
}
