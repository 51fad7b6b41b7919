/**
 * What assigning a row's value does (the `didSet` of `RowOf<T>.value` and the setter of
 * `baseValue`): a changed value of a row in a form is reported to the delegate, written to
 * the form's `tagToValues`, and every row or section whose hidden condition reads the tag is
 * re-evaluated, then every row whose disabled condition reads it.
 */
module RowValues {
  import opened Wrappers
  import opened Sequences
  import opened Visibility
  import opened Conditions
  import opened Forms
  import Observers
  import Decimal

  /** `form.rowObservers[tag]?[type] ?? []`. */
  function ObserversFor(f: Form, t: string, ty: ConditionType): (os: seq<Taggable>)
    reads f
    ensures t in f.rowObservers && ty in f.rowObservers[t] ==> os == f.rowObservers[t][ty]
    ensures !(t in f.rowObservers && ty in f.rowObservers[t]) ==> os == []
  {
    Observers.ObserversOf(f.rowObservers, t, ty)
  }

  /** The rows among the observers `os`. */
  ghost function ObserverRows(os: seq<Taggable>): set<Row> {
    set k | 0 <= k < |os| && os[k].RowObserver? :: os[k].row
  }

  /** The sections among the observers `os`. */
  ghost function ObserverSections(os: seq<Taggable>): set<Section> {
    set k | 0 <= k < |os| && os[k].SectionObserver? :: os[k].section
  }

  /** The sections that hold the rows among the observers `os`. */
  ghost function HoldingSections(os: seq<Taggable>): set<Section>
    reads ObserverRows(os)`section
  {
    set k | 0 <= k < |os| && os[k].RowObserver? && os[k].row.section != null :: os[k].row.section
  }

  /**
   * What re-evaluating `o` relies on: a row's section keeps its lists, and a section
   * observer of form `f` is in `f` or in no form.
   */
  ghost predicate Ready(f: Form, o: Taggable)
    reads if o.RowObserver? then {o.row} else {}, if o.SectionObserver? then {o.section} else {}
    reads if o.RowObserver? then o.row.section else null
  {
    match o
    case RowObserver(r) => r.section != null ==> r.section.Valid()
    case SectionObserver(s) => s.form == null || s.form == f
  }

  /**
   * `o` agrees with its hidden condition: when the condition applies (it exists and `o` is
   * in a form), the cache holds its value on the form's values and `o` is visible exactly
   * when the cache is false.
   */
  ghost predicate HiddenSettled(o: Taggable)
    reads if o.RowObserver? then {o.row} else {}, if o.SectionObserver? then {o.section} else {}
    reads if o.RowObserver? then o.row.section else null
    reads if o.RowObserver? then o.row.FormOf() else o.section.form
  {
    match o
    case RowObserver(r) =>
      r.hidden.Some? && r.InForm() ==>
        && r.hiddenCache == Evaluate(r.hidden.value, r.section.form.tagToValues)
        && (r in r.section.allRows ==> (r in r.section.rows <==> !r.hiddenCache))
    case SectionObserver(s) =>
      s.hidden.Some? && s.form != null ==>
        && s.hiddenCache == Evaluate(s.hidden.value, s.form.tagToValues)
        && (s in s.form.allSections ==> (s in s.form.sections <==> !s.hiddenCache))
  }

  /** A row observer agrees with its disabled condition; a section has none. */
  ghost predicate DisabledSettled(o: Taggable)
    reads if o.RowObserver? then {o.row} else {}, if o.RowObserver? then o.row.section else null
    reads if o.RowObserver? then o.row.FormOf() else null
  {
    o.RowObserver? && o.row.disabled.Some? && o.row.InForm() ==>
      o.row.disabledCache == Evaluate(o.row.disabled.value, o.row.section.form.tagToValues)
  }

  /**
   * One pass of `for rowObserver in rowObservers { rowObserver.evaluateHidden() }`: the
   * observer at `i` is re-evaluated, and the ones before it stay settled, since hiding or
   * showing one row or section leaves every other one where it was.
   */
  method EvaluateHiddenAt(f: Form, os: seq<Taggable>, i: nat)
    requires i < |os| && f.Valid()
    requires forall k :: 0 <= k < |os| ==> Ready(f, os[k])
    requires forall k :: 0 <= k < i ==> HiddenSettled(os[k])
    modifies ObserverRows(os)`hiddenCache, ObserverRows(os)`isFirstResponder, HoldingSections(os)`rows
    modifies ObserverSections(os)`hiddenCache, f
    ensures f.Valid() && FormKeptButSections(f)
    ensures forall k :: 0 <= k < |os| ==> Ready(f, os[k])
    ensures forall k :: 0 <= k <= i ==> HiddenSettled(os[k])
  {
    match os[i]
    case RowObserver(r) =>
      assert r in ObserverRows(os);
      EvaluateHiddenRowAt(r, f, os, i);
    case SectionObserver(s) =>
      assert s in ObserverSections(os);
      EvaluateHiddenSectionAt(s, f, os, i);
  }

  /** `EvaluateHiddenAt` for a row observer `r`: only its own section's visible rows change. */
  method EvaluateHiddenRowAt(r: Row, f: Form, os: seq<Taggable>, i: nat)
    requires i < |os| && os[i] == RowObserver(r) && f.Valid()
    requires forall k :: 0 <= k < |os| ==> Ready(f, os[k])
    requires forall k :: 0 <= k < i ==> HiddenSettled(os[k])
    modifies r`hiddenCache, r`isFirstResponder, (if r.section == null then {} else {r.section})`rows
    ensures forall k :: 0 <= k < |os| ==> Ready(f, os[k])
    ensures forall k :: 0 <= k <= i ==> HiddenSettled(os[k])
  {
    assert Ready(f, os[i]);
    r.EvaluateHidden();
    forall k | 0 <= k < i ensures HiddenSettled(os[k]) {
      match os[k]
      case RowObserver(q) =>
        if q != r && q.section != null && q.section == r.section {
          ShowMembership(old(r.section.rows), r.section.allRows, r, q);
          WithoutMembership(old(r.section.rows), r, q);
        }
      case SectionObserver(_) =>
    }
  }

  /** `EvaluateHiddenAt` for a section observer `s`: only the form's visible sections change. */
  method EvaluateHiddenSectionAt(s: Section, f: Form, os: seq<Taggable>, i: nat)
    requires i < |os| && os[i] == SectionObserver(s) && f.Valid()
    requires forall k :: 0 <= k < |os| ==> Ready(f, os[k])
    requires forall k :: 0 <= k < i ==> HiddenSettled(os[k])
    modifies s`hiddenCache, f
    ensures f.Valid() && FormKeptButSections(f)
    ensures forall k :: 0 <= k < |os| ==> Ready(f, os[k])
    ensures forall k :: 0 <= k <= i ==> HiddenSettled(os[k])
  {
    assert Ready(f, os[i]);
    s.EvaluateHidden();
    forall k | 0 <= k < i ensures HiddenSettled(os[k]) {
      match os[k]
      case RowObserver(_) =>
      case SectionObserver(t) =>
        if t != s && t.form == f && s.form == f {
          ShowMembership(old(f.sections), f.allSections, s, t);
          WithoutMembership(old(f.sections), s, t);
        }
    }
  }

  /** The hidden-observer loop of the `value` didSet over `os`. */
  method EvaluateHiddenObservers(f: Form, os: seq<Taggable>)
    requires f.Valid() && forall k :: 0 <= k < |os| ==> Ready(f, os[k])
    modifies ObserverRows(os)`hiddenCache, ObserverRows(os)`isFirstResponder, HoldingSections(os)`rows
    modifies ObserverSections(os)`hiddenCache, f
    ensures f.Valid() && FormKeptButSections(f)
    ensures forall k :: 0 <= k < |os| ==> Ready(f, os[k]) && HiddenSettled(os[k])
  {
    ghost var a0, o0, r0, t0 := f.allSections, f.rowObservers, f.rowsByTag, f.tagToValues;
    ghost var d0, c0, h0 := f.hasDelegate, f.valueChanges, f.inlineRowHideOptions;
    for i := 0 to |os|
      invariant f.Valid() && forall k :: 0 <= k < |os| ==> Ready(f, os[k])
      invariant forall k :: 0 <= k < i ==> HiddenSettled(os[k])
      invariant f.allSections == a0 && f.rowObservers == o0 && f.rowsByTag == r0 && f.tagToValues == t0
      invariant f.hasDelegate == d0 && f.valueChanges == c0 && f.inlineRowHideOptions == h0
    {
      EvaluateHiddenAt(f, os, i);
    }
  }

  /**
   * One pass of `for rowObserver in rowObservers { rowObserver.evaluateDisabled() }`: only
   * rows are `Disableable`, and re-evaluating one leaves the others and every hidden state
   * as they were.
   */
  method EvaluateDisabledAt(os: seq<Taggable>, i: nat, ghost hs: seq<Taggable>)
    requires i < |os|
    requires forall k :: 0 <= k < i ==> DisabledSettled(os[k])
    modifies ObserverRows(os)`disabledCache, ObserverRows(os)`isFirstResponder
    ensures forall k :: 0 <= k <= i ==> DisabledSettled(os[k])
    ensures forall k :: 0 <= k < |hs| ==> (old(HiddenSettled(hs[k])) ==> HiddenSettled(hs[k]))
  {
    if os[i].RowObserver? {
      var r := os[i].row;
      assert r in ObserverRows(os);
      r.EvaluateDisabled();
    }
  }

  /** The disabled-observer loop of the `value` didSet over `os`; the hidden observers `hs` stay settled. */
  method EvaluateDisabledObservers(os: seq<Taggable>, ghost hs: seq<Taggable>)
    requires forall k :: 0 <= k < |hs| ==> HiddenSettled(hs[k])
    modifies ObserverRows(os)`disabledCache, ObserverRows(os)`isFirstResponder
    ensures forall k :: 0 <= k < |os| ==> DisabledSettled(os[k])
    ensures forall k :: 0 <= k < |hs| ==> HiddenSettled(hs[k])
  {
    for i := 0 to |os|
      invariant forall k :: 0 <= k < i ==> DisabledSettled(os[k])
      invariant forall k :: 0 <= k < |hs| ==> HiddenSettled(hs[k])
    {
      EvaluateDisabledAt(os, i, hs);
    }
  }

  /** The observers `row`'s didSet re-evaluates for hidden: `form.rowObservers[tag]?[.Hidden]`. */
  function HiddenObservers(row: Row): (os: seq<Taggable>)
    reads row, row.section, row.FormOf()
    ensures row.FormOf() == null || row.tag.None? ==> os == []
  {
    if row.FormOf() == null || row.tag.None? then [] else ObserversFor(row.FormOf(), row.tag.value, Hidden)
  }

  /** The observers `row`'s didSet re-evaluates for disabled: `form.rowObservers[tag]?[.Disabled]`. */
  function DisabledObservers(row: Row): (os: seq<Taggable>)
    reads row, row.section, row.FormOf()
    ensures row.FormOf() == null || row.tag.None? ==> os == []
  {
    if row.FormOf() == null || row.tag.None? then [] else ObserversFor(row.FormOf(), row.tag.value, Disabled)
  }

  /**
   * Assigning `row.value` (the `didSet`): the value is stored; an unchanged value, or a row
   * outside a form, ends there. Otherwise the change is reported when the form has a
   * delegate, and for a tagged row the form's value table takes the new value, after which
   * every hidden observer of the tag agrees with its condition on the new table, and then
   * every disabled observer does, without unsettling the hidden ones again.
   */
  method SetValue(row: Row, newValue: Option<Value>)
    requires newValue.Some? ==> KindOf(newValue.value) == row.kind
    requires row.FormOf() != null ==> row.FormOf().Valid()
    requires forall k :: 0 <= k < |HiddenObservers(row)| ==> Ready(row.FormOf(), HiddenObservers(row)[k])
    modifies row`value, row.FormOf()
    modifies ObserverRows(HiddenObservers(row))`hiddenCache, ObserverRows(HiddenObservers(row))`isFirstResponder
    modifies HoldingSections(HiddenObservers(row))`rows, ObserverSections(HiddenObservers(row))`hiddenCache
    modifies ObserverRows(DisabledObservers(row))`disabledCache, ObserverRows(DisabledObservers(row))`isFirstResponder
    ensures row.value == newValue
    ensures old(row.FormOf()) != null ==> var f := old(row.FormOf());
      && f.Valid()
      && f.allSections == old(f.allSections) && f.rowObservers == old(f.rowObservers)
      && f.rowsByTag == old(f.rowsByTag) && f.hasDelegate == old(f.hasDelegate)
      && f.inlineRowHideOptions == old(f.inlineRowHideOptions)
      && (old(row.value) == newValue ==>
            f.valueChanges == old(f.valueChanges) && f.tagToValues == old(f.tagToValues) &&
            f.sections == old(f.sections))
      && (old(row.value) != newValue ==>
            f.valueChanges == old(f.valueChanges) + (if f.hasDelegate then [row] else []))
      && (old(row.value) != newValue && row.tag.None? ==>
            f.tagToValues == old(f.tagToValues) && f.sections == old(f.sections))
      && (old(row.value) != newValue && row.tag.Some? ==>
            && f.tagToValues == old(f.tagToValues)[row.tag.value := newValue]
            && (forall k :: 0 <= k < |old(HiddenObservers(row))| ==> HiddenSettled(old(HiddenObservers(row))[k]))
            && (forall k :: 0 <= k < |old(DisabledObservers(row))| ==> DisabledSettled(old(DisabledObservers(row))[k])))
    ensures forall s :: s in old(HoldingSections(HiddenObservers(row))) ==> s.Valid()
  {
    var oldValue := row.value;
    var f := row.FormOf();
    var hs, ds := HiddenObservers(row), DisabledObservers(row);
    row.value := newValue;
    if oldValue != newValue && f != null {
      if f.hasDelegate {
        f.valueChanges := f.valueChanges + [row];
      }
      if row.tag.Some? {
        StoreTagged(f, row.tag.value, newValue, hs, ds);
      }
    }
  }

  /**
   * The tagged part of the didSet: the table takes `v` under `t`, then the hidden observers
   * `hs` and the disabled observers `ds` of `t` are re-evaluated in that order.
   */
  method StoreTagged(f: Form, t: string, v: Option<Value>, hs: seq<Taggable>, ds: seq<Taggable>)
    requires f.Valid() && forall k :: 0 <= k < |hs| ==> Ready(f, hs[k])
    modifies f, ObserverRows(hs)`hiddenCache, ObserverRows(hs)`isFirstResponder
    modifies HoldingSections(hs)`rows, ObserverSections(hs)`hiddenCache
    modifies ObserverRows(ds)`disabledCache, ObserverRows(ds)`isFirstResponder
    ensures f.Valid() && f.tagToValues == old(f.tagToValues)[t := v]
    ensures f.allSections == old(f.allSections) && f.rowObservers == old(f.rowObservers)
    ensures f.rowsByTag == old(f.rowsByTag) && f.hasDelegate == old(f.hasDelegate)
    ensures f.valueChanges == old(f.valueChanges) && f.inlineRowHideOptions == old(f.inlineRowHideOptions)
    ensures forall k :: 0 <= k < |hs| ==> HiddenSettled(hs[k])
    ensures forall k :: 0 <= k < |ds| ==> DisabledSettled(ds[k])
    ensures forall s :: s in HoldingSections(hs) ==> s.Valid()
  {
    f.tagToValues := f.tagToValues[t := v];
    EvaluateHiddenObservers(f, hs);
    EvaluateDisabledObservers(ds, hs);
  }

  /** `String(t)` of a value: the text itself, the decimal digits of a number, `true`/`false`. */
  function Describe(v: Value): string {
    match v
    case Text(text) => text
    case Number(n) => Decimal.IntToString(n)
    case Flag(b) => if b then "true" else "false"
  }

  /** The default `displayValueFor`: no text for no value, `String(t)` for a value. */
  function DefaultDisplayValueFor(v: Option<Value>): (r: Option<string>)
    ensures r.None? <==> v.None?
    ensures v.Some? && v.value.Text? ==> r == Some(v.value.text)
    ensures v.Some? && v.value.Number? ==> r.value != [] && (r.value[0] == '-' <==> v.value.number < 0)
  {
    if v.Some? then Some(Describe(v.value)) else None
  }

  /** A non-negative number is displayed as digits whose value is the number. */
  lemma DisplayedNumberReads(n: nat)
    ensures DefaultDisplayValueFor(Some(Number(n))) == Some(Decimal.NatToString(n))
    ensures Decimal.DigitsValue(DefaultDisplayValueFor(Some(Number(n))).value) == n
  {
    Decimal.NatToStringValue(n);
  }

  /** `baseValue`'s setter: `value = newValue as? T`. */
  method SetBaseValue(row: Row, newValue: Option<Value>)
    requires row.FormOf() != null ==> row.FormOf().Valid()
    requires forall k :: 0 <= k < |HiddenObservers(row)| ==> Ready(row.FormOf(), HiddenObservers(row)[k])
    modifies row`value, row.FormOf()
    modifies ObserverRows(HiddenObservers(row))`hiddenCache, ObserverRows(HiddenObservers(row))`isFirstResponder
    modifies HoldingSections(HiddenObservers(row))`rows, ObserverSections(HiddenObservers(row))`hiddenCache
    modifies ObserverRows(DisabledObservers(row))`disabledCache, ObserverRows(DisabledObservers(row))`isFirstResponder
    ensures row.value == Cast(row.kind, newValue)
    ensures row.value.Some? ==> row.value == newValue && KindOf(newValue.value) == row.kind
    ensures old(row.FormOf()) != null ==> var f := old(row.FormOf());
      && f.Valid() && f.allSections == old(f.allSections)
      && f.rowObservers == old(f.rowObservers) && f.rowsByTag == old(f.rowsByTag)
    ensures forall s :: s in old(HoldingSections(HiddenObservers(row))) ==> s.Valid()
  {
    SetValue(row, Cast(row.kind, newValue));
  }

  /** Every row and section in the observer table `t`. */
  ghost function TableObservers(t: Observers.Table<Taggable>): set<Taggable> {
    set g, ty, o | g in t && ty in t[g] && o in t[g][ty] :: o
  }

  /** The rows of the observer table of `f`. */
  ghost function AllObserverRows(f: Form): set<Row>
    reads f
  {
    set o | o in TableObservers(f.rowObservers) && o.RowObserver? :: o.row
  }

  /** The sections of the observer table of `f`. */
  ghost function AllObserverSections(f: Form): set<Section>
    reads f
  {
    set o | o in TableObservers(f.rowObservers) && o.SectionObserver? :: o.section
  }

  /** The sections holding the rows of the observer table of `f`. */
  ghost function AllHoldingSections(f: Form): set<Section>
    reads f, AllObserverRows(f)
  {
    set r | r in AllObserverRows(f) && r.section != null :: r.section
  }

  /** The rows of the registry of `f`. */
  ghost function RegisteredRows(f: Form): set<Row>
    reads f
  {
    set t | t in f.rowsByTag :: f.rowsByTag[t]
  }

  /** The form's registry names each row under its own tag, and the row is in the form. */
  ghost predicate RegistryOwned(f: Form)
    reads f, RegisteredRows(f), set t | t in f.rowsByTag :: f.rowsByTag[t].section
  {
    forall t :: t in f.rowsByTag ==> f.rowsByTag[t].tag == Some(t) && f.rowsByTag[t].FormOf() == f
  }

  /** Every observer of the table of `f` is ready to be re-evaluated. */
  ghost predicate AllReady(f: Form)
    reads f, AllObserverRows(f), AllObserverSections(f), set r | r in AllObserverRows(f) :: r.section
  {
    forall o :: o in TableObservers(f.rowObservers) ==> Ready(f, o)
  }

  /** The keys of `values` are distinct, as the keys of a dictionary are. */
  predicate DistinctKeys(values: seq<(string, Option<Value>)>) {
    forall i, j :: 0 <= i < j < |values| ==> values[i].0 != values[j].0
  }

  /** The observers of one (tag, type) list are in the table. */
  lemma ObserversInTable(t: Observers.Table<Taggable>, g: string, ty: ConditionType)
    ensures forall k :: 0 <= k < |Observers.ObserversOf(t, g, ty)| ==> Observers.ObserversOf(t, g, ty)[k] in TableObservers(t)
  {
    forall k | 0 <= k < |Observers.ObserversOf(t, g, ty)|
      ensures Observers.ObserversOf(t, g, ty)[k] in TableObservers(t)
    {
      assert Observers.ObserversOf(t, g, ty)[k] in t[g][ty];
    }
  }

  /** What re-evaluating the observers `os` of the table of `f` may change lies in the table's footprint. */
  lemma ObserverSetsInTable(f: Form, os: seq<Taggable>)
    requires forall k :: 0 <= k < |os| ==> os[k] in TableObservers(f.rowObservers)
    ensures ObserverRows(os) <= AllObserverRows(f) && ObserverSections(os) <= AllObserverSections(f)
    ensures HoldingSections(os) <= AllHoldingSections(f)
  {
    forall s | s in HoldingSections(os) ensures s in AllHoldingSections(f) {
      var k :| 0 <= k < |os| && os[k].RowObserver? && os[k].row.section == s;
      assert os[k].row in AllObserverRows(f);
    }
  }

  /** One pass of `setValues`: the registered `row` takes `v` through `baseValue`, and the form stays ready. */
  method SetValueAt(f: Form, row: Row, v: Option<Value>)
    requires f.Valid() && RegistryOwned(f) && AllReady(f) && row in RegisteredRows(f)
    modifies f, RegisteredRows(f)`value
    modifies AllObserverRows(f)`hiddenCache, AllObserverRows(f)`isFirstResponder, AllObserverRows(f)`disabledCache
    modifies AllHoldingSections(f)`rows, AllObserverSections(f)`hiddenCache
    ensures f.Valid() && f.rowsByTag == old(f.rowsByTag) && f.rowObservers == old(f.rowObservers)
    ensures f.allSections == old(f.allSections)
    ensures RegistryOwned(f) && AllReady(f)
    ensures row.value == Cast(row.kind, v)
    ensures forall r :: r in old(RegisteredRows(f)) && r != row ==> r.value == old(r.value)
  {
    ghost var sections0 := HoldingSections(HiddenObservers(row));
    assert row.FormOf() == f;
    if row.tag.Some? {
      ObserversInTable(f.rowObservers, row.tag.value, Hidden);
      ObserversInTable(f.rowObservers, row.tag.value, Disabled);
    }
    ObserverSetsInTable(f, HiddenObservers(row));
    ObserverSetsInTable(f, DisabledObservers(row));
    SetBaseValue(row, v);
    forall o | o in TableObservers(f.rowObservers) ensures Ready(f, o) {
      assert old(Ready(f, o));
      match o
      case RowObserver(q) =>
        if q.section != null && q.section !in sections0 {
          assert old(q.section.Valid());
        }
      case SectionObserver(_) =>
    }
  }

  /** The rows named by the first `i` keys of `values` hold their assigned values. */
  ghost predicate ValuesSetUpTo(r0: map<string, Row>, values: seq<(string, Option<Value>)>, i: nat)
    reads set t | t in r0 :: r0[t]
  {
    forall j :: 0 <= j < i && j < |values| && values[j].0 in r0 ==>
      r0[values[j].0].value == Cast(r0[values[j].0].kind, values[j].1)
  }

  /** The rows whose tag is none of the first `i` keys of `values` hold the values of `before`. */
  ghost predicate UntouchedFrom(r0: map<string, Row>, values: seq<(string, Option<Value>)>, i: nat,
                                before: map<string, Option<Value>>)
    reads set t | t in r0 :: r0[t]
  {
    forall t :: t in r0 && t in before && (forall j :: 0 <= j < i && j < |values| ==> values[j].0 != t) ==>
      r0[t].value == before[t]
  }

  /** The loop of `setValues` may go on: the form is unchanged but for values and what they drive. */
  ghost predicate SetState(f: Form, r0: map<string, Row>, o0: Observers.Table<Taggable>, a0: seq<Section>)
    reads f, RegisteredRows(f), set t | t in f.rowsByTag :: f.rowsByTag[t].section
    reads AllObserverRows(f), AllObserverSections(f), set r | r in AllObserverRows(f) :: r.section
  {
    && f.Valid() && f.rowsByTag == r0 && f.rowObservers == o0 && f.allSections == a0
    && RegistryOwned(f) && AllReady(f)
  }

  /** One pass of `setValues`: key `i` of `values`, when registered, has its row take the value. */
  method SetValueOf(f: Form, values: seq<(string, Option<Value>)>, i: nat, ghost a0: seq<Section>,
                    ghost before: map<string, Option<Value>>)
    requires i < |values| && DistinctKeys(values)
    requires SetState(f, f.rowsByTag, f.rowObservers, a0)
    requires ValuesSetUpTo(f.rowsByTag, values, i) && UntouchedFrom(f.rowsByTag, values, i, before)
    modifies f, RegisteredRows(f)`value
    modifies AllObserverRows(f)`hiddenCache, AllObserverRows(f)`isFirstResponder, AllObserverRows(f)`disabledCache
    modifies AllHoldingSections(f)`rows, AllObserverSections(f)`hiddenCache
    ensures SetState(f, old(f.rowsByTag), old(f.rowObservers), a0)
    ensures ValuesSetUpTo(f.rowsByTag, values, i + 1) && UntouchedFrom(f.rowsByTag, values, i + 1, before)
  {
    ghost var r0 := f.rowsByTag;
    var key := values[i].0;
    var row := f.RowByTag(key);
    if row.Some? {
      assert row.value in RegisteredRows(f);
      SetValueAt(f, row.value, values[i].1);
      forall j | 0 <= j < i && values[j].0 in r0
        ensures r0[values[j].0].value == Cast(r0[values[j].0].kind, values[j].1)
      {
        assert r0[values[j].0] in old(RegisteredRows(f));
        assert r0[values[j].0].tag == Some(values[j].0);
        assert old(r0[values[j].0].value) == Cast(r0[values[j].0].kind, values[j].1);
      }
      forall t | t in r0 && t in before && (forall j :: 0 <= j < i + 1 && j < |values| ==> values[j].0 != t)
        ensures r0[t].value == before[t]
      {
        assert r0[t] in old(RegisteredRows(f));
        assert r0[t].tag == Some(t);
      }
    }
  }

  /**
   * `setValues`: for each key of the dictionary that names a registered row, that row's
   * `baseValue` is assigned the value; keys without a row are ignored, and rows whose tag
   * is not a key keep their value.
   */
  method SetValues(f: Form, values: seq<(string, Option<Value>)>)
    requires f.Valid() && DistinctKeys(values) && RegistryOwned(f) && AllReady(f)
    modifies f, RegisteredRows(f)`value
    modifies AllObserverRows(f)`hiddenCache, AllObserverRows(f)`isFirstResponder, AllObserverRows(f)`disabledCache
    modifies AllHoldingSections(f)`rows, AllObserverSections(f)`hiddenCache
    ensures f.Valid() && f.rowsByTag == old(f.rowsByTag) && f.rowObservers == old(f.rowObservers)
    ensures f.allSections == old(f.allSections)
    ensures forall i :: 0 <= i < |values| && values[i].0 in f.rowsByTag ==>
      f.rowsByTag[values[i].0].value == Cast(f.rowsByTag[values[i].0].kind, values[i].1)
    ensures forall t :: t in f.rowsByTag && (forall i :: 0 <= i < |values| ==> values[i].0 != t) ==>
      f.rowsByTag[t].value == old(f.rowsByTag[t].value)
  {
    ghost var r0, o0, a0 := f.rowsByTag, f.rowObservers, f.allSections;
    ghost var before := map t | t in r0 :: r0[t].value;
    for i := 0 to |values|
      invariant SetState(f, r0, o0, a0)
      invariant ValuesSetUpTo(r0, values, i) && UntouchedFrom(r0, values, i, before)
    {
      SetValueOf(f, values, i, a0, before);
    }
  }
}
