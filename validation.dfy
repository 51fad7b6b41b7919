/**
 * Row validation: validation errors, the validation options, rule sets, and the rules of
 * the library (range, length and value comparisons, required, negation, equality with
 * another row, regular expressions and URLs).
 *
 * Regular expression matching is foreign (NSPredicate `MATCHES`): it is a parameter
 * `matches(value, pattern)` that stands for a match of the whole value.
 */
module Validation {
  import opened Wrappers
  import opened Conditions
  import Options
  import Forms
  import opened Decimal

  /** `ValidationError`: a message, possibly nil. */
  datatype ValidationError = ValidationError(msg: Option<string>)

  /** The `==` of `ValidationError`: the messages are equal. */
  function SameError(a: ValidationError, b: ValidationError): bool {
    a.msg == b.msg
  }

  /** Two errors are `==` exactly when they are the same value. */
  lemma SameErrorIsEquality(a: ValidationError, b: ValidationError)
    ensures SameError(a, b) <==> a == b
  {
  }

  // ValidationOptions raw values.
  const ValidatesOnDemand: Options.Bits := 1 << 0
  const ValidatesOnChange: Options.Bits := 1 << 1
  const ValidatesOnBlur: Options.Bits := 1 << 2
  const ValidatesOnChangeAfterBlurred: Options.Bits := 1 << 3
  const ValidatesAlways: Options.Bits := ValidatesOnChange | ValidatesOnBlur

  /**
   * The four options are distinct single bits; `ValidatesAlways` holds exactly on-change and
   * on-blur.
   */
  lemma ValidationOptionFacts()
    ensures ValidatesOnDemand == 1 && ValidatesOnChange == 2 && ValidatesOnBlur == 4 && ValidatesOnChangeAfterBlurred == 8
    ensures Options.Contains(ValidatesAlways, ValidatesOnChange) && Options.Contains(ValidatesAlways, ValidatesOnBlur)
    ensures !Options.Contains(ValidatesAlways, ValidatesOnDemand)
    ensures !Options.Contains(ValidatesAlways, ValidatesOnChangeAfterBlurred)
  {
  }

  /** The four comparison rules of the range validations, over integers. */
  datatype RangeRule =
    | GreaterThan(min: int)
    | GreaterOrEqualThan(min: int)
    | SmallerThan(max: int)
    | SmallerOrEqualThan(max: int)

  /** The `validationError` each initializer stores, with the bound in its message. */
  function RangeError(r: RangeRule): (e: ValidationError)
    ensures e.msg.Some?
  {
    match r
    case GreaterThan(min) => ValidationError(Some("Field value must be greater than " + IntToString(min)))
    case GreaterOrEqualThan(min) => ValidationError(Some("Field value must be greater or equals than " + IntToString(min)))
    case SmallerThan(max) => ValidationError(Some("Field value must be smaller than " + IntToString(max)))
    case SmallerOrEqualThan(max) => ValidationError(Some("Field value must be smaller or equals than " + IntToString(max)))
  }

  /** `isValid` of a range rule: nil passes, a value on the wrong side of the bound is the rule's error. */
  function RangeIsValid(r: RangeRule, value: Option<int>): (e: Option<ValidationError>)
    ensures e.Some? ==> e.value == RangeError(r)
    ensures value.None? ==> e.None?
    ensures value.Some? && r.GreaterThan? ==> (e.Some? <==> value.value <= r.min)
    ensures value.Some? && r.GreaterOrEqualThan? ==> (e.Some? <==> value.value < r.min)
    ensures value.Some? && r.SmallerThan? ==> (e.Some? <==> value.value >= r.max)
    ensures value.Some? && r.SmallerOrEqualThan? ==> (e.Some? <==> value.value > r.max)
  {
    if value.None? then None
    else
      var val := value.value;
      var ok := match r
        case GreaterThan(min) => val > min
        case GreaterOrEqualThan(min) => val >= min
        case SmallerThan(max) => val < max
        case SmallerOrEqualThan(max) => val <= max;
      if ok then None else Some(RangeError(r))
  }

  /**
   * A strict rule and its non-strict partner on the same bound disagree exactly at the
   * bound: `GreaterOrEqualThan(m)` accepts what `GreaterThan(m)` accepts and `m` itself.
   */
  lemma RangeBoundary(m: int, v: int)
    ensures RangeIsValid(GreaterOrEqualThan(m), Some(v)).None? <==>
            RangeIsValid(GreaterThan(m), Some(v)).None? || v == m
    ensures RangeIsValid(SmallerOrEqualThan(m), Some(v)).None? <==>
            RangeIsValid(SmallerThan(m), Some(v)).None? || v == m
    ensures RangeIsValid(GreaterThan(m), Some(v)).None? <==> RangeIsValid(SmallerOrEqualThan(m), Some(v)).Some?
  {
  }

  /** `Comparator` of the length and value rules. */
  datatype Comparator = Equal(to: int) | Greater(than: int) | Less(than: int) | In(lower: int, upper: int)

  /** `Comparator.contains`; `in` is a closed range. */
  function ComparatorContains(c: Comparator, v: int): bool {
    match c
    case Equal(x) => v == x
    case Greater(x) => v > x
    case Less(x) => v < x
    case In(lo, hi) => lo <= v <= hi
  }

  /** `Comparator.description`. */
  function ComparatorDescription(c: Comparator): string {
    match c
    case Equal(x) => "must be " + IntToString(x)
    case Greater(x) => "must greater than " + IntToString(x)
    case Less(x) => "must less than " + IntToString(x)
    case In(lo, hi) => "must be in " + IntToString(lo) + "..." + IntToString(hi) + " range"
  }

  // The initializers of `Length`.
  function LongerThan(n: nat): Comparator { Greater(n) }
  function ShorterThan(n: nat): Comparator { Less(n) }
  function Exactly(n: nat): Comparator { Equal(n) }

  /** `Length.description`. */
  function LengthDescription(c: Comparator): string {
    "Length " + ComparatorDescription(c)
  }

  /**
   * The rules of the `RowRule` family: `Required`, `Length` (on text), `Value` (on numbers)
   * and `Not` of another rule.
   */
  datatype RowRule = Required | Length(condition: Comparator) | ValueRule(condition: Comparator) | Not(wrapped: RowRule)

  /** The value has the row type the rule is declared for (a static guarantee in the source). */
  predicate WellTyped(r: RowRule, v: Option<Value>) {
    match r
    case Required => true
    case Length(_) => v.None? || v.value.Text?
    case ValueRule(_) => v.None? || v.value.Number?
    case Not(w) => WellTyped(w, v)
  }

  /** `allows(_:in:)` of each rule. */
  function Allows(r: RowRule, v: Option<Value>): bool
    requires WellTyped(r, v)
  {
    match r
    case Required => if v.Some? && v.value.Text? then v.value.text != "" else v.Some?
    case Length(c) => v.None? || v.value.text == "" || ComparatorContains(c, |v.value.text|)
    case ValueRule(c) => v.None? || ComparatorContains(c, v.value.number)
    case Not(w) => !Allows(w, v)
  }

  /** `Required` rejects nil and the empty string, and accepts every other value. */
  lemma RequiredSpec(v: Option<Value>)
    ensures Allows(Required, v) <==> v.Some? && v != Some(Text(""))
  {
  }

  /** `Not` negates the wrapped rule, so a double negation is the rule itself. */
  lemma NotNot(r: RowRule, v: Option<Value>)
    requires WellTyped(r, v)
    ensures Allows(Not(r), v) == !Allows(r, v)
    ensures Allows(Not(Not(r)), v) == Allows(r, v)
  {
  }

  /** `Not(Required)` accepts exactly nil and the empty string. */
  lemma NotRequired(v: Option<Value>)
    ensures Allows(Not(Required), v) <==> v.None? || v == Some(Text(""))
  {
  }

  /**
   * `Length` accepts nil and the empty string whatever its condition, and otherwise
   * compares the character count: longer than `n` is a count above `n`, shorter than `n`
   * a count below `n`, exactly `n` a count of `n`.
   */
  lemma LengthSpec(c: Comparator, s: string, n: nat)
    ensures Allows(Length(c), None) && Allows(Length(c), Some(Text("")))
    ensures s != "" ==> (Allows(Length(c), Some(Text(s))) <==> ComparatorContains(c, |s|))
    ensures s != "" ==> (Allows(Length(LongerThan(n)), Some(Text(s))) <==> |s| > n)
    ensures s != "" ==> (Allows(Length(ShorterThan(n)), Some(Text(s))) <==> |s| < n)
    ensures s != "" ==> (Allows(Length(Exactly(n)), Some(Text(s))) <==> |s| == n)
  {
  }

  /** `Value` accepts nil and otherwise applies its condition to the number. */
  lemma ValueRuleSpec(c: Comparator, v: Option<Value>)
    requires v.None? || v.value.Number?
    ensures Allows(ValueRule(c), v) <==> v.None? || ComparatorContains(c, v.value.number)
  {
  }

  /** `RuleEqualsToRow`: the other row, given directly or by its tag in a form. */
  datatype EqualsToRow = EqualsToRow(id: Option<string>, error: ValidationError, form: Forms.Form?, tag: Option<string>,
                                     row: Forms.Row?)

  /** `init(form:tag:msg:)`: no row. */
  function EqualsToRowInForm(form: Forms.Form, tag: string, msg: string := "Fields don't match!"): (r: EqualsToRow)
    ensures r.form == form && r.tag == Some(tag) && r.row == null && r.error == ValidationError(Some(msg))
    ensures r.id == None
  {
    EqualsToRow(None, ValidationError(Some(msg)), form, Some(tag), null)
  }

  /** `init(row:msg:)`: no form and no tag. */
  function EqualsToGivenRow(row: Forms.Row, msg: string := "Fields don't match!"): (r: EqualsToRow)
    ensures r.row == row && r.form == null && r.tag == None && r.error == ValidationError(Some(msg))
    ensures r.id == None
  {
    EqualsToRow(None, ValidationError(Some(msg)), null, None, row)
  }

  /**
   * The row `isValid` compares against: the given row, else the form's row with the tag.
   * Both `form!` and the row lookup are force-unwrapped: without a row, the form and tag
   * must resolve to one.
   */
  predicate EqualsToRowResolves(r: EqualsToRow)
    reads r.form
  {
    r.row != null || (r.form != null && r.tag.Some? && r.tag.value in r.form.rowsByTag)
  }

  function OtherRow(r: EqualsToRow): Forms.Row
    requires EqualsToRowResolves(r)
    reads r.form
  {
    if r.row != null then r.row else r.form.RowByTag(r.tag.value).value
  }

  /** `isValid`: no error exactly when the other row holds the same value (two nils are equal). */
  function EqualsToRowIsValid(r: EqualsToRow, value: Option<Value>): (e: Option<ValidationError>)
    requires EqualsToRowResolves(r)
    reads r.form, OtherRow(r)
    ensures e.None? <==> OtherRow(r).value == value
    ensures e.Some? ==> e.value == r.error
    ensures r.row != null ==> (e.None? <==> r.row.value == value)
  {
    if OtherRow(r).value == value then None else Some(r.error)
  }

  /** `RegExprPattern`. */
  const EmailAddressPattern: string :=
    "^[_A-Za-z0-9-+]+(\\.[_A-Za-z0-9-+]+)*@[A-Za-z0-9-]+(\\.[A-Za-z0-9-]+)*(\\.[A-Za-z\U{200C}\U{200B}]{2,})$"
  const URLPattern: string := "((https|http)://)((\\w|-)+)(([.]|[/])((\\w|-)+))+"
  const ContainsNumberPattern: string := ".*\\d.*"
  const ContainsCapitalPattern: string := "^.*?[A-Z].*?$"
  const ContainsLowercasePattern: string := "^.*?[a-z].*?$"

  /** `RuleRegExp`'s stored configuration. */
  datatype RegExpRule = RegExpRule(regExpr: string, id: Option<string>, error: ValidationError, allowsEmpty: bool)

  /** `init(regExpr:allowsEmpty:msg:)` with its defaults. */
  function MakeRegExpRule(regExpr: string, allowsEmpty: bool := true, msg: string := "Invalid field value!"): (r: RegExpRule)
    ensures r.regExpr == regExpr && r.allowsEmpty == allowsEmpty && r.error == ValidationError(Some(msg)) && r.id == None
  {
    RegExpRule(regExpr, None, ValidationError(Some(msg)), allowsEmpty)
  }

  /**
   * `RuleRegExp.isValid`: a non-empty value is an error exactly when it does not match;
   * nil or the empty string is an error exactly when empty values are not allowed. The only
   * error returned is the stored one.
   */
  function RegExpIsValid(r: RegExpRule, value: Option<string>, matches: (string, string) -> bool): (e: Option<ValidationError>)
    ensures e.Some? ==> e.value == r.error
    ensures value.Some? && value.value != "" ==> (e.Some? <==> !matches(value.value, r.regExpr))
    ensures value.None? || value.value == "" ==> (e.Some? <==> !r.allowsEmpty)
  {
    if value.Some? && value.value != "" then
      if matches(value.value, r.regExpr) then None else Some(r.error)
    else if !r.allowsEmpty then Some(r.error)
    else None
  }

  /** `RuleURL`'s stored configuration; a URL is given by its `absoluteString`. */
  datatype URLRule = URLRule(id: Option<string>, allowsEmpty: bool, requiresProtocol: bool, error: ValidationError)

  /**
   * `RuleURL.init(allowsEmpty:requiresProtocol:msg:)`: only the message is used, the flags
   * keep their declared values `true` and `false` whatever is passed.
   */
  function MakeURLRule(allowsEmpty: bool := true, requiresProtocol: bool := false,
                       msg: string := "Field value must be an URL!"): (r: URLRule)
    ensures r.allowsEmpty && !r.requiresProtocol && r.error == ValidationError(Some(msg)) && r.id == None
  {
    URLRule(None, true, false, ValidationError(Some(msg)))
  }

  /** `RuleURL.isValid`, against the URL pattern. */
  function URLIsValid(r: URLRule, absoluteString: Option<string>, matches: (string, string) -> bool): (e: Option<ValidationError>)
    ensures e.Some? ==> e.value == r.error
    ensures absoluteString.Some? && absoluteString.value != "" ==> (e.Some? <==> !matches(absoluteString.value, URLPattern))
    ensures absoluteString.None? || absoluteString.value == "" ==> (e.Some? <==> !r.allowsEmpty)
  {
    if absoluteString.Some? && absoluteString.value != "" then
      if matches(absoluteString.value, URLPattern) then None else Some(r.error)
    else if !r.allowsEmpty then Some(r.error)
    else None
  }

  /**
   * A rule built by the initializer never reports an empty URL, whatever flags were passed,
   * and it decides a non-empty URL as `RuleRegExp` with the URL pattern does.
   */
  lemma URLRuleAllowsEmpty(allowsEmpty: bool, requiresProtocol: bool, msg: string, u: Option<string>,
                           matches: (string, string) -> bool)
    ensures u.None? || u.value == "" ==> URLIsValid(MakeURLRule(allowsEmpty, requiresProtocol, msg), u, matches).None?
    ensures URLIsValid(MakeURLRule(allowsEmpty, requiresProtocol, msg), u, matches) ==
            RegExpIsValid(MakeRegExpRule(URLPattern, true, msg), u, matches)
  {
  }

  /** A rule of a `RuleSet`: its id, its error and its `isValid` (`ValidationRuleHelper`). */
  datatype RuleHelper<!T> = RuleHelper(id: Option<string>, error: ValidationError, validate: Option<T> -> Option<ValidationError>)

  /** The position of the first rule with the id. */
  function FirstWithId<T>(rules: seq<RuleHelper<T>>, id: string): (i: Option<nat>)
    ensures i.Some? ==> i.value < |rules| && rules[i.value].id == Some(id)
    ensures i.Some? ==> forall k :: 0 <= k < i.value ==> rules[k].id != Some(id)
    ensures i.None? ==> forall k :: 0 <= k < |rules| ==> rules[k].id != Some(id)
  {
    if rules == [] then None
    else if rules[0].id == Some(id) then Some(0)
    else
      var i := FirstWithId(rules[1..], id);
      if i.Some? then Some(i.value + 1) else None
  }

  /** `RuleSet<T>`: the rules of a row, in the order they were added. */
  class RuleSet<!T> {
    var rules: seq<RuleHelper<T>>

    constructor ()
      ensures rules == []
    {
      rules := [];
    }

    /** `addRule`: the rule goes last. */
    method AddRule(rule: RuleHelper<T>)
      modifies this
      ensures rules == old(rules) + [rule]
    {
      rules := rules + [rule];
    }

    /**
     * `removeRuleWith(identifier:)`: the first rule with the id goes, the others keep their
     * order; without such a rule nothing changes.
     */
    method RemoveRuleWith(identifier: string)
      modifies this
      ensures rules == RemoveFirstWithId(old(rules), identifier)
    {
      var i := FirstWithId(rules, identifier);
      if i.Some? {
        rules := rules[..i.value] + rules[i.value + 1..];
      }
    }

    /** `removeAllRules`. */
    method RemoveAllRules()
      modifies this
      ensures rules == []
    {
      rules := [];
    }
  }

  /** The rules after `removeRuleWith(identifier:)`. */
  function RemoveFirstWithId<T>(rules: seq<RuleHelper<T>>, id: string): seq<RuleHelper<T>> {
    var i := FirstWithId(rules, id);
    if i.Some? then rules[..i.value] + rules[i.value + 1..] else rules
  }

  /**
   * Removing by id drops exactly one rule, the first with that id, when there is one: the
   * rules before it and after it are kept in order; with no such rule the set is unchanged.
   */
  lemma RemoveFirstWithIdSpec<T>(rules: seq<RuleHelper<T>>, id: string)
    ensures (forall k :: 0 <= k < |rules| ==> rules[k].id != Some(id)) ==> RemoveFirstWithId(rules, id) == rules
    ensures (exists k :: 0 <= k < |rules| && rules[k].id == Some(id)) ==>
      exists i :: 0 <= i < |rules| && rules[i].id == Some(id) && (forall k :: 0 <= k < i ==> rules[k].id != Some(id)) &&
                  RemoveFirstWithId(rules, id) == rules[..i] + rules[i + 1..]
  {
    var i := FirstWithId(rules, id);
    if i.Some? {
      assert RemoveFirstWithId(rules, id) == rules[..i.value] + rules[i.value + 1..];
    }
  }

  /** The first rule with an id that only the appended rule has is the appended one. */
  lemma {:induction false} FirstWithIdAppended<T>(rules: seq<RuleHelper<T>>, rule: RuleHelper<T>, id: string)
    requires rule.id == Some(id) && forall k :: 0 <= k < |rules| ==> rules[k].id != Some(id)
    ensures FirstWithId(rules + [rule], id) == Some(|rules|)
  {
    if rules != [] {
      assert (rules + [rule])[1..] == rules[1..] + [rule];
      FirstWithIdAppended(rules[1..], rule, id);
    }
  }

  /** Adding a rule with an id no rule has and removing that id gives the rules back. */
  lemma AddThenRemove<T>(rules: seq<RuleHelper<T>>, rule: RuleHelper<T>, id: string)
    requires rule.id == Some(id) && forall k :: 0 <= k < |rules| ==> rules[k].id != Some(id)
    ensures RemoveFirstWithId(rules + [rule], id) == rules
  {
    var all := rules + [rule];
    assert forall k :: 0 <= k < |rules| ==> all[k] == rules[k];
    FirstWithIdAppended(rules, rule, id);
    assert all[..|rules|] == rules;
  }

  /** `ValidationResult`: valid for a row, or invalid for a row with a message. */
  datatype ValidationResult = Valid(row: Forms.Row) | Invalid(row: Forms.Row, msg: string) {
    /** `valid`. */
    predicate IsValid() {
      Valid?
    }

    /** `errors`: no message when valid, the one message otherwise. */
    function Errors(): (es: seq<string>)
      ensures Invalid? ==> es == [msg]
    {
      match this
      case Valid(_) => []
      case Invalid(_, m) => [m]
    }
  }

  /** A result is valid exactly when it has no errors, and it never has more than one. */
  lemma ValidIffNoErrors(r: ValidationResult)
    ensures r.IsValid() <==> r.Errors() == []
    ensures |r.Errors()| <= 1
  {
  }

  /** `PresenceValidator`. */
  datatype PresenceValidator = PresenceValidator(msg: string)

  /** `init(msg:)` with its default message. */
  function MakePresenceValidator(msg: string := "Value needs to be present"): PresenceValidator {
    PresenceValidator(msg)
  }

  /**
   * `validate(row:)`: valid exactly when the row's `baseValue` is non-nil, the empty string
   * included; an invalid result carries the validator's message; both carry the row.
   */
  function PresenceValidate(v: PresenceValidator, row: Forms.Row): (r: ValidationResult)
    reads row
    ensures r.row == row
    ensures r.IsValid() <==> row.BaseValue().Some?
    ensures r.Invalid? ==> r.msg == v.msg
  {
    match row.BaseValue()
    case Some(_) => Valid(row)
    case None => Invalid(row, v.msg)
  }

  /** `RegexValidator`. */
  datatype RegexValidator = RegexValidator(regex: string, msg: string)

  /** `init(regex:msg:)` with its default message. */
  function MakeRegexValidator(regex: string, msg: string := "Regex didn't match"): RegexValidator {
    RegexValidator(regex, msg)
  }

  /**
   * `validate(row:)`: valid exactly when `baseValue` is a string in which the regex is found
   * somewhere (`rangeOfString(_:options: .RegularExpressionSearch)`, given as `search`);
   * nil and values of other types are invalid.
   */
  function RegexValidate(v: RegexValidator, row: Forms.Row, search: (string, string) -> bool): (r: ValidationResult)
    reads row
    ensures r.row == row
    ensures r.IsValid() <==> row.BaseValue().Some? && row.BaseValue().value.Text? && search(row.BaseValue().value.text, v.regex)
    ensures r.Invalid? ==> r.msg == v.msg
  {
    var b := row.BaseValue();
    if b.Some? && b.value.Text? && search(b.value.text, v.regex) then Valid(row) else Invalid(row, v.msg)
  }
}
