/**
 * The object graph of a Eureka form: a `Form` holds sections, a `Section` holds rows, and a
 * row (`BaseRow` together with `RowOf<T>`) holds a value. Form and section each keep a full
 * list (`_allSections`, `_allRows`) and the visible subsequence of it (`sections`, `rows`);
 * the form keeps the tag registry (`rowsByTag`, `tagToValues`) and the observer table
 * (`rowObservers`). Object identity is Dafny reference equality, which is what Swift's `===`
 * and the `==` of `BaseRow` compare.
 */
module Forms {
  import opened Wrappers
  import opened Sequences
  import opened Visibility
  import opened Conditions
  import Observers
  import Options

  /** The cell of a row (`Row._cell`), set up once when it is created. */
  class Cell {
    var setups: nat

    constructor ()
      ensures setups == 0
    {
      setups := 0;
    }

    method Setup()
      modifies this
      ensures setups == old(setups) + 1
    {
      setups := setups + 1;
    }
  }

  /** A row or a section, as stored in the observer table (`Taggable`). */
  datatype Taggable = RowObserver(row: Row) | SectionObserver(section: Section)

  /**
   * The first element of `xs` whose tag is `t`, `tagOf` giving each element's tag: the search
   * of `rowByTag` over rows and of `sectionByTag` over sections.
   */
  function FirstWithTag<T(==)>(xs: seq<T>, tagOf: T -> Option<string>, t: string): (r: Option<T>)
    ensures r.Some? ==> r.value in xs && tagOf(r.value) == Some(t)
    ensures r.Some? ==> forall k :: 0 <= k < IndexOf(xs, r.value) ==> tagOf(xs[k]) != Some(t)
    ensures r.None? ==> forall k :: 0 <= k < |xs| ==> tagOf(xs[k]) != Some(t)
  {
    if xs == [] then None
    else if tagOf(xs[0]) == Some(t) then Some(xs[0])
    else
      var r := FirstWithTag(xs[1..], tagOf, t);
      if r.Some? then
        assert xs[0] != r.value;
        assert forall k :: 1 <= k < |xs| ==> xs[k] == xs[1..][k - 1];
        Some(r.value)
      else None
  }

  /** The visible rows of the sections `ss`, section after section (`flatMap`). */
  function VisibleRows(ss: seq<Section>): (rs: seq<Row>)
    reads ss
    ensures forall i :: 0 <= i < |rs| ==> exists k :: 0 <= k < |ss| && rs[i] in ss[k].rows
    ensures forall k, j :: 0 <= k < |ss| && 0 <= j < |ss[k].rows| ==> ss[k].rows[j] in rs
  {
    if ss == [] then [] else
    var init := ss[..|ss| - 1];
    var rs := VisibleRows(init) + ss[|ss| - 1].rows;
    assert forall k :: 0 <= k < |init| ==> init[k] == ss[k];
    rs
  }

  /** Every row of the sections `ss`, hidden ones included. */
  function EveryRow(ss: seq<Section>): (rs: seq<Row>)
    reads ss
  {
    if ss == [] then [] else EveryRow(ss[..|ss| - 1]) + ss[|ss| - 1].allRows
  }

  /** `EveryRow` holds the rows of the sections and nothing else. */
  lemma {:induction false} EveryRowSpec(ss: seq<Section>)
    ensures forall i :: 0 <= i < |EveryRow(ss)| ==> exists k :: 0 <= k < |ss| && EveryRow(ss)[i] in ss[k].allRows
    ensures forall k, j :: 0 <= k < |ss| && 0 <= j < |ss[k].allRows| ==> ss[k].allRows[j] in EveryRow(ss)
  {
    if ss != [] {
      var init := ss[..|ss| - 1];
      EveryRowSpec(init);
      assert forall k :: 0 <= k < |init| ==> init[k] == ss[k];
      var rs, last := EveryRow(ss), ss[|ss| - 1];
      assert rs == EveryRow(init) + last.allRows;
      forall i | 0 <= i < |rs| ensures exists k :: 0 <= k < |ss| && rs[i] in ss[k].allRows {
        if i < |EveryRow(init)| {
          var k :| 0 <= k < |init| && rs[i] in init[k].allRows;
          assert ss[k] == init[k];
        } else {
          assert rs[i] in ss[|ss| - 1].allRows;
        }
      }
    } else {
      assert EveryRow(ss) == [];
    }
  }

  /**
   * What adding a row to a form reads of it, taken before the row is added: the row, its
   * value and its conditions.
   */
  datatype Entry = Entry(row: Row, value: Option<Value>, hidden: Option<Condition>, disabled: Option<Condition>)

  function EntryOf(r: Row): Entry
    reads r
  {
    Entry(r, r.value, r.hidden, r.disabled)
  }

  function EntriesOf(rs: seq<Row>): (es: seq<Entry>)
    reads rs
    ensures |es| == |rs| && forall k :: 0 <= k < |rs| ==> es[k] == EntryOf(rs[k])
  {
    if rs == [] then [] else EntriesOf(rs[..|rs| - 1]) + [EntryOf(rs[|rs| - 1])]
  }

  /** `tagToValues[tag] = value` for a tagged entry. */
  function Assign(t: Table, e: Entry): Table {
    if e.row.tag.Some? then t[e.row.tag.value := e.value] else t
  }

  /** `tagToValues[tag] = value` for each tagged entry in turn. */
  function AssignValues(base: Table, es: seq<Entry>): Table {
    if es == [] then base else Assign(AssignValues(base, es[..|es| - 1]), es[|es| - 1])
  }

  /**
   * After the assignments the table has an entry for the tags it had and for the tags of the
   * entries, and nothing else; the entry of a tag is the value of the last entry carrying it,
   * and a tag no entry carries keeps its value.
   */
  lemma AssignValuesSpec(base: Table, es: seq<Entry>)
    ensures forall t :: t in AssignValues(base, es) <==> t in base || exists k :: 0 <= k < |es| && es[k].row.tag == Some(t)
    ensures forall k :: 0 <= k < |es| && es[k].row.tag.Some? && (forall j :: k < j < |es| ==> es[j].row.tag != es[k].row.tag) ==>
              es[k].row.tag.value in AssignValues(base, es) && AssignValues(base, es)[es[k].row.tag.value] == es[k].value
    ensures forall t :: t in base && (forall k :: 0 <= k < |es| ==> es[k].row.tag != Some(t)) ==>
              AssignValues(base, es)[t] == base[t]
  {
    AssignValuesKeys(base, es);
    AssignValuesLast(base, es);
    AssignValuesUntouched(base, es);
  }

  /** The tags of the table after the assignments: those it had and those of the entries. */
  lemma {:induction false} AssignValuesKeys(base: Table, es: seq<Entry>)
    ensures forall t :: t in AssignValues(base, es) <==> t in base || exists k :: 0 <= k < |es| && es[k].row.tag == Some(t)
  {
    if es != [] {
      var init := es[..|es| - 1];
      var last := es[|es| - 1];
      AssignValuesKeys(base, init);
      var m := AssignValues(base, init);
      assert AssignValues(base, es) == Assign(m, last);
      forall t ensures t in AssignValues(base, es) <==> t in base || exists k :: 0 <= k < |es| && es[k].row.tag == Some(t) {
        if exists k :: 0 <= k < |init| && init[k].row.tag == Some(t) {
          var k :| 0 <= k < |init| && init[k].row.tag == Some(t);
          assert es[k] == init[k];
        }
        if exists k :: 0 <= k < |es| && es[k].row.tag == Some(t) {
          var k :| 0 <= k < |es| && es[k].row.tag == Some(t);
          if k < |init| { assert init[k] == es[k]; }
        }
      }
    }
  }

  /** A tagged entry that no later entry overrides gives its tag its value. */
  lemma AssignValuesLast(base: Table, es: seq<Entry>)
    ensures forall k :: 0 <= k < |es| && es[k].row.tag.Some? && (forall j :: k < j < |es| ==> es[j].row.tag != es[k].row.tag) ==>
              es[k].row.tag.value in AssignValues(base, es) && AssignValues(base, es)[es[k].row.tag.value] == es[k].value
  {
    forall k | 0 <= k < |es| && es[k].row.tag.Some? && (forall j :: k < j < |es| ==> es[j].row.tag != es[k].row.tag)
      ensures es[k].row.tag.value in AssignValues(base, es) && AssignValues(base, es)[es[k].row.tag.value] == es[k].value
    {
      AssignValuesLastAt(base, es, k, es[k].row.tag.value);
    }
  }

  /** Entry `k`, tagged `t` and not overridden later, gives `t` its value. */
  lemma {:induction false} AssignValuesLastAt(base: Table, es: seq<Entry>, k: nat, t: string)
    requires k < |es| && es[k].row.tag == Some(t)
    requires forall j :: k < j < |es| ==> es[j].row.tag != Some(t)
    ensures t in AssignValues(base, es) && AssignValues(base, es)[t] == es[k].value
  {
    var init := es[..|es| - 1];
    var last := es[|es| - 1];
    assert AssignValues(base, es) == Assign(AssignValues(base, init), last);
    if k < |es| - 1 {
      assert init[k] == es[k];
      forall j | k < j < |init| ensures init[j].row.tag != Some(t) {
        assert init[j] == es[j];
      }
      AssignValuesLastAt(base, init, k, t);
    }
  }

  /** A tag no entry carries keeps its value. */
  lemma {:induction false} AssignValuesUntouched(base: Table, es: seq<Entry>)
    ensures forall t :: t in base && (forall k :: 0 <= k < |es| ==> es[k].row.tag != Some(t)) ==>
              t in AssignValues(base, es) && AssignValues(base, es)[t] == base[t]
  {
    if es != [] {
      var init := es[..|es| - 1];
      var last := es[|es| - 1];
      AssignValuesUntouched(base, init);
      var m := AssignValues(base, init);
      assert AssignValues(base, es) == Assign(m, last);
      forall t | t in base && (forall k :: 0 <= k < |es| ==> es[k].row.tag != Some(t))
        ensures t in AssignValues(base, es) && AssignValues(base, es)[t] == base[t]
      {
        assert forall k :: 0 <= k < |init| ==> init[k].row.tag != Some(t) by {
          forall k | 0 <= k < |init| ensures init[k].row.tag != Some(t) {
            assert init[k] == es[k];
          }
        }
        assert last.row.tag != Some(t);
      }
    }
  }

  /** Taking in one more entry. */
  lemma EntriesStep(base: Table, t: Observers.Table<Taggable>, es: seq<Entry>, i: nat)
    requires i < |es|
    ensures AssignValues(base, es[..i + 1]) ==
      if es[i].row.tag.Some? then AssignValues(base, es[..i])[es[i].row.tag.value := es[i].value]
      else AssignValues(base, es[..i])
    ensures ObserveEntries(t, es[..i + 1]) ==
      Observe(ObserveEntries(t, es[..i]), RowObserver(es[i].row), es[i].hidden, es[i].disabled)
  {
    assert es[..i + 1][..i] == es[..i];
  }

  /**
   * The value table built by the `reduce` of `values(includeHidden:)`: one entry per tagged
   * row, a later row overriding an earlier one with the same tag.
   */
  function TaggedValues(rs: seq<Row>): Table
    reads rs
  {
    AssignValues(map[], EntriesOf(rs))
  }

  /**
   * The table has an entry for exactly the tags of the rows, and the entry of a tag is the
   * value of the last row carrying it.
   */
  ghost predicate ValuesOf(m: Table, rs: seq<Row>)
    reads rs
  {
    && (forall t :: t in m <==> exists k :: 0 <= k < |rs| && rs[k].tag == Some(t))
    && (forall k :: 0 <= k < |rs| && rs[k].tag.Some? && (forall j :: k < j < |rs| ==> rs[j].tag != rs[k].tag) ==>
          rs[k].tag.value in m && m[rs[k].tag.value] == rs[k].value)
  }

  /** The `reduce` builds the values table of the rows. */
  lemma TaggedValuesSpec(rs: seq<Row>)
    ensures ValuesOf(TaggedValues(rs), rs)
  {
    var es := EntriesOf(rs);
    AssignValuesSpec(map[], es);
    assert forall k :: 0 <= k < |rs| ==> es[k].row == rs[k] && es[k].value == rs[k].value;
  }

  /** Every section of `ss` keeps its row lists. */
  ghost predicate SectionsValid(ss: seq<Section>)
    reads ss
  {
    forall k :: 0 <= k < |ss| ==> ss[k].Valid()
  }

  class Row {
    /** Identifies the row among the rows and sections of a form. */
    const tag: Option<string>
    /** The `T` of `RowOf<T>`. */
    const kind: ValueKind
    var value: Option<Value>
    var hidden: Option<Condition>
    var disabled: Option<Condition>
    var hiddenCache: bool
    var disabledCache: bool
    /** The section that holds the row (a weak reference in the source). */
    var section: Section?
    /** Whether the row's cell is the first responder. */
    var isFirstResponder: bool
    /** Whether the row can become first responder (keyboard navigation). */
    const canBecomeFirstResponder: bool
    /** Whether the row is a `BaseInlineRowType`, a row that can expand an inline row. */
    const isInlineRowType: bool
    /** `_inlineRow`: the inline row shown below this row while it is expanded. */
    var inlineRow: Row?
    /** For an inline row: the row its `onChange` copies the value back to. */
    var inlineParent: Row?
    /** `selectableValue` of a selectable row. */
    var selectableValue: Option<Value>
    /** `_cell`, created on first use. */
    var cell: Cell?

    /** `init(tag:)` of a row of type `kind`. */
    constructor (tag: Option<string>, kind: ValueKind, canBecomeFirstResponder: bool, isInlineRowType: bool)
      ensures this.tag == tag && this.kind == kind && value == None
      ensures hidden == None && disabled == None && !hiddenCache && !disabledCache
      ensures section == null && !isFirstResponder && inlineRow == null && inlineParent == null
      ensures this.canBecomeFirstResponder == canBecomeFirstResponder
      ensures this.isInlineRowType == isInlineRowType
      ensures selectableValue == None && cell == null
    {
      this.tag := tag;
      this.kind := kind;
      value := None;
      hidden := None;
      disabled := None;
      hiddenCache := false;
      disabledCache := false;
      section := null;
      isFirstResponder := false;
      this.canBecomeFirstResponder := canBecomeFirstResponder;
      this.isInlineRowType := isInlineRowType;
      inlineRow := null;
      inlineParent := null;
      selectableValue := None;
      cell := null;
    }

    /** `baseValue`'s getter: the typed value, untyped. */
    function BaseValue(): Option<Value>
      reads this
    {
      value
    }

    /**
     * `indexPath()`: the position of the section among the form's visible sections and of
     * the row among the section's visible rows; nil unless both are visible and the section
     * is in a form.
     */
    function IndexPath(): (p: Option<(nat, nat)>)
      reads this, section, if section == null then null else section.form
      ensures p.Some? <==> section != null && section.form != null &&
                           section in section.form.sections && this in section.rows
      ensures p.Some? ==> p.value.0 < |section.form.sections| && section.form.sections[p.value.0] == section
      ensures p.Some? ==> p.value.1 < |section.rows| && section.rows[p.value.1] == this
    {
      if section != null && section.form != null && section in section.form.sections && this in section.rows
      then Some((IndexOf(section.form.sections, section), IndexOf(section.rows, this)))
      else None
    }

    /** `cell`: created and set up on the first read, the same cell afterwards. */
    method GetCell() returns (c: Cell)
      modifies this`cell
      ensures cell == c
      ensures old(cell) != null ==> c == old(cell) && c.setups == old(c.setups)
      ensures old(cell) == null ==> fresh(c) && c.setups == 1
    {
      if cell != null {
        return cell;
      }
      c := new Cell();
      c.Setup();
      cell := c;
    }

    /** `section?.form`. */
    function FormOf(): Form?
      reads this, section
    {
      if section == null then null else section.form
    }

    /** The row's guard in `evaluateHidden`/`evaluateDisabled`: it is in a section that has a form. */
    predicate InForm()
      reads this, section
    {
      section != null && section.form != null
    }

    /**
     * `evaluateHidden`: without a hidden condition or a form nothing happens; otherwise
     * `hiddenCache` becomes the condition's value on the form's values, and the row is
     * hidden in or shown again in its section to match.
     */
    method EvaluateHidden()
      requires section != null ==> section.Valid()
      modifies this`hiddenCache, this`isFirstResponder, (if section == null then {} else {section})`rows
      ensures section != null ==> section.Valid() && SectionKept(section)
      ensures hidden.None? || !InForm() ==>
        hiddenCache == old(hiddenCache) && isFirstResponder == old(isFirstResponder) &&
        (section != null ==> section.rows == old(section.rows))
      ensures hidden.Some? && InForm() ==>
        && hiddenCache == Evaluate(hidden.value, section.form.tagToValues)
        && section.rows == (if hiddenCache then Without(old(section.rows), this)
                            else Show(old(section.rows), section.allRows, this))
        && (hiddenCache ==> !isFirstResponder)
        && (!hiddenCache ==> isFirstResponder == old(isFirstResponder))
        && (this in section.allRows ==> (this in section.rows <==> !hiddenCache))
    {
      if hidden.None? || section == null || section.form == null {
        return;
      }
      var form := section.form;
      hiddenCache := Evaluate(hidden.value, form.tagToValues);
      if hiddenCache {
        section.HideRow(this);
      } else {
        ShowMembership(section.rows, section.allRows, this, this);
        section.ShowRow(this);
      }
    }

    /**
     * `evaluateDisabled`: without a disabled condition or a form nothing happens; otherwise
     * `disabledCache` becomes the condition's value, and turning disabled resigns first
     * responder (the `willSet` of `disabledCache`).
     */
    method EvaluateDisabled()
      modifies this`disabledCache, this`isFirstResponder
      ensures disabled.None? || !InForm() ==>
        disabledCache == old(disabledCache) && isFirstResponder == old(isFirstResponder)
      ensures disabled.Some? && InForm() ==>
        && disabledCache == Evaluate(disabled.value, section.form.tagToValues)
        && isFirstResponder == (old(isFirstResponder) && !(disabledCache && !old(disabledCache)))
    {
      if disabled.None? || section == null || section.form == null {
        return;
      }
      var form := section.form;
      var newValue := Evaluate(disabled.value, form.tagToValues);
      if newValue && !disabledCache {
        isFirstResponder := false;
      }
      disabledCache := newValue;
    }

    /**
     * `wasAddedToFormInSection`: the row points to its section; in a form, a tagged row is
     * registered under its tag with its value, the row observes the tags its conditions
     * read, and both conditions are evaluated. A tag already registered is an assertion
     * failure in the source and is excluded here.
     */
    method WasAddedToFormInSection(s: Section)
      requires s.Valid()
      requires s.form != null && tag.Some? ==> tag.value !in s.form.rowsByTag
      modifies this`section, this`hiddenCache, this`disabledCache, this`isFirstResponder, s, s.form
      ensures section == s && s.Valid() && SectionKept(s)
      ensures s.form != null ==> FormKeptButRegistry(s.form)
      ensures s.form != null ==>
        && s.form.rowsByTag == (if tag.Some? then old(s.form.rowsByTag)[tag.value := this] else old(s.form.rowsByTag))
        && s.form.tagToValues == (if tag.Some? then old(s.form.tagToValues)[tag.value := value] else old(s.form.tagToValues))
        && s.form.rowObservers == Observe(old(s.form.rowObservers), RowObserver(this), hidden, disabled)
      ensures s.form == null ==> (s.rows == old(s.rows) && hiddenCache == old(hiddenCache) &&
        disabledCache == old(disabledCache) && isFirstResponder == old(isFirstResponder))
      ensures s.form != null && hidden.Some? ==>
        && hiddenCache == Evaluate(hidden.value, s.form.tagToValues)
        && s.rows == (if hiddenCache then Without(old(s.rows), this) else Show(old(s.rows), s.allRows, this))
        && (this in s.allRows ==> (this in s.rows <==> !hiddenCache))
      ensures s.form != null && hidden.None? ==> s.rows == old(s.rows) && hiddenCache == old(hiddenCache)
      ensures s.form != null && disabled.Some? ==> disabledCache == Evaluate(disabled.value, s.form.tagToValues)
      ensures s.form != null && disabled.None? ==> disabledCache == old(disabledCache)
    {
      section := s;
      RegisterInForm();
      EvaluateHidden();
      EvaluateDisabled();
    }

    /**
     * The registration steps of `wasAddedToFormInSection`: the tag and value go into the
     * form's tables and the row observes the tags its conditions read.
     */
    method RegisterInForm()
      requires FormOf() != null && tag.Some? ==> tag.value !in FormOf().rowsByTag
      modifies FormOf()
      ensures FormOf() != null ==> FormKeptButRegistry(FormOf())
      ensures FormOf() != null ==>
        && FormOf().rowsByTag == (if tag.Some? then old(FormOf().rowsByTag)[tag.value := this] else old(FormOf().rowsByTag))
        && FormOf().tagToValues == (if tag.Some? then old(FormOf().tagToValues)[tag.value := value] else old(FormOf().tagToValues))
        && FormOf().rowObservers == Observe(old(FormOf().rowObservers), RowObserver(this), hidden, disabled)
    {
      if tag.Some? && section != null && section.form != null {
        section.form.rowsByTag := section.form.rowsByTag[tag.value := this];
        section.form.tagToValues := section.form.tagToValues[tag.value := value];
      }
      AddToHiddenRowObservers();
      AddToDisabledRowObservers();
    }

    /**
     * `willBeRemovedFromForm`: in a form, the row's tag leaves the registry and the values,
     * and the row stops observing the tags its conditions read.
     */
    method WillBeRemovedFromForm()
      modifies FormOf()
      ensures FormOf() != null ==> FormKeptButRegistry(FormOf())
      ensures FormOf() != null ==>
        && FormOf().rowsByTag == (if tag.Some? then old(FormOf().rowsByTag) - {tag.value} else old(FormOf().rowsByTag))
        && FormOf().tagToValues == (if tag.Some? then old(FormOf().tagToValues) - {tag.value} else old(FormOf().tagToValues))
        && FormOf().rowObservers == Unobserve(old(FormOf().rowObservers), RowObserver(this), hidden, disabled)
    {
      if tag.Some? && section != null && section.form != null {
        section.form.rowsByTag := section.form.rowsByTag - {tag.value};
        section.form.tagToValues := section.form.tagToValues - {tag.value};
      }
      RemoveFromHiddenRowObservers();
      RemoveFromDisabledRowObservers();
    }

    /** `addToHiddenRowObservers`: registers the row under the tags its hidden condition reads. */
    method AddToHiddenRowObservers()
      modifies FormOf()
      ensures FormOf() != null ==> FormKeptButObservers(FormOf())
      ensures FormOf() != null ==> (FormOf().rowObservers ==
        if hidden.None? then old(FormOf().rowObservers)
        else Observers.AddAll(old(FormOf().rowObservers), RowObserver(this), DependencyTags(hidden.value), Hidden))
    {
      if hidden.Some? && section != null && section.form != null {
        section.form.AddRowObservers(RowObserver(this), DependencyTags(hidden.value), Hidden);
      }
    }

    /** `addToDisabledRowObservers`: registers the row under the tags its disabled condition reads. */
    method AddToDisabledRowObservers()
      modifies FormOf()
      ensures FormOf() != null ==> FormKeptButObservers(FormOf())
      ensures FormOf() != null ==> (FormOf().rowObservers ==
        if disabled.None? then old(FormOf().rowObservers)
        else Observers.AddAll(old(FormOf().rowObservers), RowObserver(this), DependencyTags(disabled.value), Disabled))
    {
      if disabled.Some? && section != null && section.form != null {
        section.form.AddRowObservers(RowObserver(this), DependencyTags(disabled.value), Disabled);
      }
    }

    /** `removeFromHiddenRowObservers`, with the corrected removal. */
    method RemoveFromHiddenRowObservers()
      modifies FormOf()
      ensures FormOf() != null ==> FormKeptButObservers(FormOf())
      ensures FormOf() != null ==> (FormOf().rowObservers ==
        if hidden.None? then old(FormOf().rowObservers)
        else Observers.RemoveAll(old(FormOf().rowObservers), RowObserver(this), DependencyTags(hidden.value), Hidden))
    {
      if hidden.Some? && section != null && section.form != null {
        section.form.RemoveRowObservers(RowObserver(this), DependencyTags(hidden.value), Hidden);
      }
    }

    /** `removeFromDisabledRowObservers`, with the corrected removal. */
    method RemoveFromDisabledRowObservers()
      modifies FormOf()
      ensures FormOf() != null ==> FormKeptButObservers(FormOf())
      ensures FormOf() != null ==> (FormOf().rowObservers ==
        if disabled.None? then old(FormOf().rowObservers)
        else Observers.RemoveAll(old(FormOf().rowObservers), RowObserver(this), DependencyTags(disabled.value), Disabled))
    {
      if disabled.Some? && section != null && section.form != null {
        section.form.RemoveRowObservers(RowObserver(this), DependencyTags(disabled.value), Disabled);
      }
    }

    /**
     * Assigning `hidden`: the `willSet` deregisters the row for the old condition's tags,
     * the `didSet` registers it for the new one's. The condition is not evaluated.
     */
    method SetHidden(c: Option<Condition>)
      modifies this`hidden, FormOf()
      ensures hidden == c
      ensures FormOf() != null ==> FormKeptButObservers(FormOf())
      ensures FormOf() != null ==> (FormOf().rowObservers ==
        var removed := if old(hidden).None? then old(FormOf().rowObservers)
                       else Observers.RemoveAll(old(FormOf().rowObservers), RowObserver(this),
                                                DependencyTags(old(hidden).value), Hidden);
        if c.None? then removed else Observers.AddAll(removed, RowObserver(this), DependencyTags(c.value), Hidden))
    {
      RemoveFromHiddenRowObservers();
      hidden := c;
      AddToHiddenRowObservers();
    }

    /** Assigning `disabled`: deregister for the old condition, register for the new one. */
    method SetDisabled(c: Option<Condition>)
      modifies this`disabled, FormOf()
      ensures disabled == c
      ensures FormOf() != null ==> FormKeptButObservers(FormOf())
      ensures FormOf() != null ==> (FormOf().rowObservers ==
        var removed := if old(disabled).None? then old(FormOf().rowObservers)
                       else Observers.RemoveAll(old(FormOf().rowObservers), RowObserver(this),
                                                DependencyTags(old(disabled).value), Disabled);
        if c.None? then removed else Observers.AddAll(removed, RowObserver(this), DependencyTags(c.value), Disabled))
    {
      RemoveFromDisabledRowObservers();
      disabled := c;
      AddToDisabledRowObservers();
    }
  }

  /**
   * The observer table after `addToRowObservers` of observer `o` with conditions `hidden` and
   * `disabled`: the hidden condition's tags, then the disabled condition's tags.
   */
  function Observe(t: Observers.Table<Taggable>, o: Taggable, hidden: Option<Condition>,
                   disabled: Option<Condition>): Observers.Table<Taggable>
  {
    var t1 := if hidden.None? then t else Observers.AddAll(t, o, DependencyTags(hidden.value), Hidden);
    if disabled.None? then t1 else Observers.AddAll(t1, o, DependencyTags(disabled.value), Disabled)
  }

  /** The observer table after the corrected `removeFromRowObservers` of observer `o`. */
  function Unobserve(t: Observers.Table<Taggable>, o: Taggable, hidden: Option<Condition>,
                     disabled: Option<Condition>): Observers.Table<Taggable>
  {
    var t1 := if hidden.None? then t else Observers.RemoveAll(t, o, DependencyTags(hidden.value), Hidden);
    if disabled.None? then t1 else Observers.RemoveAll(t1, o, DependencyTags(disabled.value), Disabled)
  }

  /** `rowsByTag[tag] = row` for a tagged row. */
  function Register(m: map<string, Row>, r: Row): map<string, Row> {
    if r.tag.Some? then m[r.tag.value := r] else m
  }

  /** The registry entries of the tagged rows of `rs` (a later row wins a shared tag). */
  function TagRegistry(rs: seq<Row>): map<string, Row>
  {
    if rs == [] then map[] else Register(TagRegistry(rs[..|rs| - 1]), rs[|rs| - 1])
  }

  /** The registry has an entry for exactly the tags of the rows, each naming a row with that tag. */
  lemma {:induction false} TagRegistrySpec(rs: seq<Row>)
    ensures forall t :: t in TagRegistry(rs) <==> exists k :: 0 <= k < |rs| && rs[k].tag == Some(t)
    ensures forall t :: t in TagRegistry(rs) ==> TagRegistry(rs)[t] in rs && TagRegistry(rs)[t].tag == Some(t)
  {
    if rs != [] {
      var init := rs[..|rs| - 1];
      TagRegistrySpec(init);
      assert forall k :: 0 <= k < |init| ==> init[k] == rs[k];
    }
  }

  /** Registering the rows one at a time: the next row is registered under its tag. */
  lemma TagRegistryStep(base: map<string, Row>, rs: seq<Row>, i: nat)
    requires i < |rs|
    ensures base + TagRegistry(rs[..i + 1]) ==
      if rs[i].tag.Some? then (base + TagRegistry(rs[..i]))[rs[i].tag.value := rs[i]]
      else base + TagRegistry(rs[..i])
  {
    assert rs[..i + 1][..i] == rs[..i];
  }

  /** The tags of the tagged rows of `rs`. */
  function TagsOf(rs: seq<Row>): (ts: set<string>)
    ensures forall t :: t in ts <==> exists k :: 0 <= k < |rs| && rs[k].tag == Some(t)
  {
    if rs == [] then {} else
    var init := rs[..|rs| - 1];
    var last := rs[|rs| - 1];
    assert forall k :: 0 <= k < |init| ==> init[k] == rs[k];
    TagsOf(init) + (if last.tag.Some? then {last.tag.value} else {})
  }

  /** The observer table after each entry, in order, has registered its conditions. */
  function ObserveEntries(t: Observers.Table<Taggable>, es: seq<Entry>): Observers.Table<Taggable> {
    if es == [] then t else
    var last := es[|es| - 1];
    Observe(ObserveEntries(t, es[..|es| - 1]), RowObserver(last.row), last.hidden, last.disabled)
  }

  /** The observer table after each entry, in order, has deregistered its conditions. */
  function UnobserveEntries(t: Observers.Table<Taggable>, es: seq<Entry>): Observers.Table<Taggable> {
    if es == [] then t else
    var last := es[|es| - 1];
    Unobserve(UnobserveEntries(t, es[..|es| - 1]), RowObserver(last.row), last.hidden, last.disabled)
  }

  /**
   * Whether a row added to a section stays visible: it is hidden only when the section is in
   * a form, the row has a hidden condition, and that condition held.
   */
  predicate StaysVisible(f: Form?, r: Row)
    reads r
  {
    !(f != null && r.hidden.Some? && r.hiddenCache)
  }

  /** The rows of `rs` that stay visible once added to the section in form `f`, in order. */
  function Staying(f: Form?, rs: seq<Row>): (r: seq<Row>)
    reads rs
    ensures forall k :: 0 <= k < |r| ==> r[k] in rs
  {
    if rs == [] then [] else
    var last := rs[|rs| - 1];
    Staying(f, rs[..|rs| - 1]) + (if StaysVisible(f, last) then [last] else [])
  }

  /** `Staying` selects the rows by their own `StaysVisible` flags. */
  lemma {:induction false} StayingIsSelect(f: Form?, rs: seq<Row>, keep: seq<bool>)
    requires |keep| == |rs|
    requires forall k :: 0 <= k < |rs| ==> keep[k] == StaysVisible(f, rs[k])
    ensures Staying(f, rs) == Select(rs, keep)
  {
    if rs != [] {
      StayingIsSelect(f, rs[..|rs| - 1], keep[..|rs| - 1]);
    }
  }

  /**
   * The registries while the rows of `rs` are registered one by one: `ts[k]` holds the
   * registry before row `k`, `ts[|rs|]` the final one.
   */
  ghost function RegistryTrace(base: map<string, Row>, rs: seq<Row>): (ts: seq<map<string, Row>>)
    ensures |ts| == |rs| + 1 && ts[0] == base
    ensures forall k {:trigger rs[k]} :: 0 <= k < |rs| ==> ts[k + 1] == Register(ts[k], rs[k])
  {
    if rs == [] then [base] else
    var p := RegistryTrace(base, rs[..|rs| - 1]);
    p + [Register(p[|rs| - 1], rs[|rs| - 1])]
  }

  /** Each registry of the trace is the base with the rows before it registered. */
  lemma {:induction false} RegistryTraceAt(base: map<string, Row>, rs: seq<Row>, k: nat)
    requires k <= |rs|
    ensures RegistryTrace(base, rs)[k] == base + TagRegistry(rs[..k])
  {
    if rs != [] {
      var init := rs[..|rs| - 1];
      if k == |rs| {
        RegistryTraceAt(base, init, k - 1);
        assert rs[..k] == rs && init[..k - 1] == init;
        assert TagRegistry(rs) == Register(TagRegistry(init), rs[k - 1]);
      } else {
        RegistryTraceAt(base, init, k);
        assert init[..k] == rs[..k];
      }
    }
  }

  /** The value tables while the entries of `es` are assigned one by one. */
  ghost function ValueTrace(base: Table, es: seq<Entry>): (ts: seq<Table>)
    ensures |ts| == |es| + 1 && ts[0] == base
    ensures forall k {:trigger es[k]} :: 0 <= k < |es| ==> ts[k + 1] == Assign(ts[k], es[k])
  {
    if es == [] then [base] else
    var p := ValueTrace(base, es[..|es| - 1]);
    p + [Assign(p[|es| - 1], es[|es| - 1])]
  }

  /** Each table of the trace is the base with the entries before it assigned. */
  lemma {:induction false} ValueTraceAt(base: Table, es: seq<Entry>, k: nat)
    requires k <= |es|
    ensures ValueTrace(base, es)[k] == AssignValues(base, es[..k])
  {
    if es != [] {
      var init := es[..|es| - 1];
      if k == |es| {
        ValueTraceAt(base, init, k - 1);
        assert es[..k] == es && init[..k - 1] == init;
      } else {
        ValueTraceAt(base, init, k);
        assert init[..k] == es[..k];
      }
    }
  }

  /** The observer tables while the entries of `es` register their conditions one by one. */
  ghost function ObserverTrace(base: Observers.Table<Taggable>, es: seq<Entry>): (ts: seq<Observers.Table<Taggable>>)
    ensures |ts| == |es| + 1 && ts[0] == base
    ensures forall k {:trigger es[k]} :: 0 <= k < |es| ==>
      ts[k + 1] == Observe(ts[k], RowObserver(es[k].row), es[k].hidden, es[k].disabled)
  {
    if es == [] then [base] else
    var p := ObserverTrace(base, es[..|es| - 1]);
    var last := es[|es| - 1];
    p + [Observe(p[|es| - 1], RowObserver(last.row), last.hidden, last.disabled)]
  }

  /** The last table of the trace is the base with every entry registered. */
  lemma {:induction false} ObserverTraceLast(base: Observers.Table<Taggable>, es: seq<Entry>)
    ensures ObserverTrace(base, es)[|es|] == ObserveEntries(base, es)
  {
    if es != [] {
      ObserverTraceLast(base, es[..|es| - 1]);
    }
  }

  /** A row still to be registered finds its tag free in the registry of the trace. */
  lemma RegistryTraceFresh(base: map<string, Row>, rs: seq<Row>)
    requires FreshIn(rs, base)
    ensures forall k :: 0 <= k < |rs| && rs[k].tag.Some? ==> rs[k].tag.value !in RegistryTrace(base, rs)[k]
  {
    forall k | 0 <= k < |rs| && rs[k].tag.Some?
      ensures rs[k].tag.value !in RegistryTrace(base, rs)[k]
    {
      RegistryTraceAt(base, rs, k);
      AddedRowHasFreshTag(base, rs, k);
    }
  }

  /** What the loop of `AddRowsToForm` records for each row, restated per row. */
  lemma AddedAll(f: Form?, s: Section, rs: seq<Row>, shown: seq<bool>, values: Table, es: seq<Entry>)
    requires |shown| == |rs| == |es|
    requires forall k {:trigger rs[k]} :: 0 <= k < |rs| ==> AddedRow(f, s, rs[k], shown[k], ValueTrace(values, es)[k + 1])
    ensures Staying(f, rs) == Select(rs, shown)
    ensures forall k :: 0 <= k < |rs| ==> rs[k].section == s
    ensures f != null ==> forall k :: 0 <= k < |rs| ==> EvaluatedOn(f, rs[k], AssignValues(values, es[..k + 1]))
  {
    var trace := ValueTrace(values, es);
    forall j | 0 < j <= |rs| ensures trace[j] == AssignValues(values, es[..j]) {
      ValueTraceAt(values, es, j);
    }
    StayingIsSelect(f, rs, shown);
  }

  /**
   * The conditions of a row added to the form in `f` were evaluated on `table`, the values
   * the form held once the row was registered.
   */
  ghost predicate EvaluatedOn(f: Form?, r: Row, table: Table)
    reads r
  {
    && (f != null && r.hidden.Some? ==> r.hiddenCache == Evaluate(r.hidden.value, table))
    && (f != null && r.disabled.Some? ==> r.disabledCache == Evaluate(r.disabled.value, table))
  }

  /**
   * The registry, the values and the observer table of `f` are the tables `r0`, `v0`, `o0`
   * with the rows `rs`, whose entries are `es`, registered in order.
   */
  ghost predicate Registered(f: Form, r0: map<string, Row>, v0: Table, o0: Observers.Table<Taggable>,
                             rs: seq<Row>, es: seq<Entry>)
    reads f
  {
    && f.rowsByTag == r0 + TagRegistry(rs)
    && f.tagToValues == AssignValues(v0, es)
    && f.rowObservers == ObserveEntries(o0, es)
  }

  /**
   * The registry, the values and the observer table of `f` are the tables `r0`, `v0`, `o0`
   * with the rows `rs`, whose entries are `es`, deregistered in order.
   */
  ghost predicate Unregistered(f: Form, r0: map<string, Row>, v0: Table, o0: Observers.Table<Taggable>,
                               rs: seq<Row>, es: seq<Entry>)
    reads f
  {
    && f.rowsByTag == r0 - TagsOf(rs)
    && f.tagToValues == v0 - TagsOf(rs)
    && f.rowObservers == UnobserveEntries(o0, es)
  }

  /** Deregistering one more row. */
  lemma UnregisterStep(r0: map<string, Row>, v0: Table, o0: Observers.Table<Taggable>, rs: seq<Row>, es: seq<Entry>, i: nat)
    requires i < |rs| && i < |es|
    ensures r0 - TagsOf(rs[..i + 1]) ==
      if rs[i].tag.Some? then (r0 - TagsOf(rs[..i])) - {rs[i].tag.value} else r0 - TagsOf(rs[..i])
    ensures v0 - TagsOf(rs[..i + 1]) ==
      if rs[i].tag.Some? then (v0 - TagsOf(rs[..i])) - {rs[i].tag.value} else v0 - TagsOf(rs[..i])
    ensures UnobserveEntries(o0, es[..i + 1]) ==
      Unobserve(UnobserveEntries(o0, es[..i]), RowObserver(es[i].row), es[i].hidden, es[i].disabled)
  {
    assert rs[..i + 1][..i] == rs[..i];
    assert es[..i + 1][..i] == es[..i];
  }

  /**
   * The lists while the rows of `gone` are deleted one by one from `all`: entry `j` is the
   * list before row `j`, the last one the final list.
   */
  ghost function ExceptTrace(all: seq<Row>, gone: seq<Row>): (ts: seq<seq<Row>>)
    ensures |ts| == |gone| + 1
  {
    seq(|gone| + 1, j requires 0 <= j <= |gone| => Except(all, gone[..j]))
  }

  /** Step `j` of the trace deletes row `j` of `gone` at its position. */
  lemma ExceptTraceStep(all: seq<Row>, gone: seq<Row>, j: nat)
    requires Distinct(all) && Distinct(gone) && j < |gone| && gone[j] in all
    ensures var ts := ExceptTrace(all, gone);
      gone[j] in ts[j] && ts[j + 1] == RemoveAt(ts[j], IndexOf(ts[j], gone[j]))
  {
    ExceptIsSubsequence(all, gone[..j]);
    SubsequenceIsDistinct(Except(all, gone[..j]), all);
    ExceptStep(all, gone, j);
  }

  /** The trace starts at `all`, ends with every row of `gone` deleted, and deletes one row per step. */
  lemma ExceptTraceSteps(all: seq<Row>, gone: seq<Row>)
    requires Distinct(all) && Distinct(gone)
    requires forall k :: 0 <= k < |gone| ==> gone[k] in all
    ensures var ts := ExceptTrace(all, gone);
      && ts[0] == all && ts[|gone|] == Except(all, gone) && Distinct(ts[|gone|])
      && forall j {:trigger gone[j]} :: 0 <= j < |gone| ==>
           gone[j] in ts[j] && ts[j + 1] == RemoveAt(ts[j], IndexOf(ts[j], gone[j]))
  {
    ExceptNothing(all);
    assert gone[..0] == [] && gone[..|gone|] == gone;
    forall j | 0 <= j < |gone|
      ensures var ts := ExceptTrace(all, gone);
        gone[j] in ts[j] && ts[j + 1] == RemoveAt(ts[j], IndexOf(ts[j], gone[j]))
    {
      ExceptTraceStep(all, gone, j);
    }
    ExceptIsSubsequence(all, gone);
    SubsequenceIsDistinct(Except(all, gone), all);
  }

  /** The trace of `ExceptTrace`, with its steps but not its definition. */
  lemma DeletionTrace(all: seq<Row>, gone: seq<Row>) returns (ts: seq<seq<Row>>)
    requires Distinct(all) && Distinct(gone)
    requires forall k :: 0 <= k < |gone| ==> gone[k] in all
    ensures |ts| == |gone| + 1
    ensures ts[0] == all && ts[|gone|] == Except(all, gone) && Distinct(ts[|gone|])
    ensures forall j {:trigger gone[j]} :: 0 <= j < |gone| ==>
      gone[j] in ts[j] && ts[j + 1] == RemoveAt(ts[j], IndexOf(ts[j], gone[j]))
  {
    ts := ExceptTrace(all, gone);
    ExceptTraceSteps(all, gone);
  }

  /** The registries, value tables and observer tables while the rows of `gone` are unregistered. */
  ghost function UnregisterTraces(gone: seq<Row>, es: seq<Entry>, r0: map<string, Row>, v0: Table,
                                  o0: Observers.Table<Taggable>)
    : (ts: (seq<map<string, Row>>, seq<Table>, seq<Observers.Table<Taggable>>))
    requires |es| == |gone|
    ensures |ts.0| == |gone| + 1 && |ts.1| == |gone| + 1 && |ts.2| == |gone| + 1
  {
    (seq(|gone| + 1, j requires 0 <= j <= |gone| => r0 - TagsOf(gone[..j])),
     seq(|gone| + 1, j requires 0 <= j <= |gone| => v0 - TagsOf(gone[..j])),
     seq(|gone| + 1, j requires 0 <= j <= |gone| => UnobserveEntries(o0, es[..j])))
  }

  /** Each step of the traces unregisters the next row. */
  lemma UnregisterTraceSteps(gone: seq<Row>, es: seq<Entry>, r0: map<string, Row>, v0: Table,
                             o0: Observers.Table<Taggable>)
    requires |es| == |gone| && forall k :: 0 <= k < |gone| ==> es[k].row == gone[k]
    ensures var (regs, vals, obs) := UnregisterTraces(gone, es, r0, v0, o0);
      && regs[0] == r0 && vals[0] == v0 && obs[0] == o0
      && regs[|gone|] == r0 - TagsOf(gone) && vals[|gone|] == v0 - TagsOf(gone)
      && obs[|gone|] == UnobserveEntries(o0, es)
      && forall j {:trigger gone[j]} :: 0 <= j < |gone| ==>
        && regs[j + 1] == (if gone[j].tag.Some? then regs[j] - {gone[j].tag.value} else regs[j])
        && vals[j + 1] == (if gone[j].tag.Some? then vals[j] - {gone[j].tag.value} else vals[j])
        && obs[j + 1] == Unobserve(obs[j], RowObserver(gone[j]), es[j].hidden, es[j].disabled)
  {
    var (regs, vals, obs) := UnregisterTraces(gone, es, r0, v0, o0);
    UnregisteredNothing(r0, v0, o0, gone, es);
    assert gone[..|gone|] == gone && es[..|es|] == es;
    forall j | 0 <= j < |gone|
      ensures regs[j + 1] == (if gone[j].tag.Some? then regs[j] - {gone[j].tag.value} else regs[j])
      ensures vals[j + 1] == (if gone[j].tag.Some? then vals[j] - {gone[j].tag.value} else vals[j])
      ensures obs[j + 1] == Unobserve(obs[j], RowObserver(gone[j]), es[j].hidden, es[j].disabled)
    {
      UnregisterStep(r0, v0, o0, gone, es, j);
    }
  }

  /** The rows at positions `start..<end` of the visible rows are distinct rows of all rows. */
  lemma SliceInAll(rows: seq<Row>, all: seq<Row>, start: nat, end: nat)
    requires Distinct(all) && Subsequence(rows, all) && start <= end <= |rows|
    ensures Distinct(rows[start..end])
    ensures forall k :: 0 <= k < end - start ==> rows[start..end][k] in all
  {
    SubsequenceIsDistinct(rows, all);
    DistinctSlice(rows, start, end);
    forall k | 0 <= k < end - start ensures rows[start..end][k] in all {
      assert rows[start..end][k] == rows[start + k];
    }
  }

  /** The traces of `UnregisterTraces`, with their steps but not their definition. */
  lemma UnregisterTrace(gone: seq<Row>, es: seq<Entry>, r0: map<string, Row>, v0: Table, o0: Observers.Table<Taggable>)
      returns (regs: seq<map<string, Row>>, vals: seq<Table>, obs: seq<Observers.Table<Taggable>>)
    requires |es| == |gone| && forall k :: 0 <= k < |gone| ==> es[k].row == gone[k]
    ensures |regs| == |gone| + 1 && |vals| == |gone| + 1 && |obs| == |gone| + 1
    ensures regs[0] == r0 && vals[0] == v0 && obs[0] == o0
    ensures regs[|gone|] == r0 - TagsOf(gone) && vals[|gone|] == v0 - TagsOf(gone)
    ensures obs[|gone|] == UnobserveEntries(o0, es)
    ensures forall j {:trigger gone[j]} :: 0 <= j < |gone| ==>
      && regs[j + 1] == (if gone[j].tag.Some? then regs[j] - {gone[j].tag.value} else regs[j])
      && vals[j + 1] == (if gone[j].tag.Some? then vals[j] - {gone[j].tag.value} else vals[j])
      && obs[j + 1] == Unobserve(obs[j], RowObserver(gone[j]), es[j].hidden, es[j].disabled)
  {
    UnregisterTraceSteps(gone, es, r0, v0, o0);
    regs, vals, obs := UnregisterTraces(gone, es, r0, v0, o0).0, UnregisterTraces(gone, es, r0, v0, o0).1,
                       UnregisterTraces(gone, es, r0, v0, o0).2;
  }

  /**
   * The passes of the first loop of `replaceRange` over the rows `gone` (whose entries are
   * `es`): pass `j` deletes `gone[j]` from all rows `alls[j]`, and releases its tag and its
   * observers from the tables `regs[j]`, `vals[j]`, `obs[j]`.
   */
  ghost predicate RemovalSteps(gone: seq<Row>, es: seq<Entry>, alls: seq<seq<Row>>, regs: seq<map<string, Row>>,
                               vals: seq<Table>, obs: seq<Observers.Table<Taggable>>)
  {
    && |es| == |gone| && |alls| == |gone| + 1 && |regs| == |gone| + 1 && |vals| == |gone| + 1 && |obs| == |gone| + 1
    && (forall j {:trigger gone[j]} :: 0 <= j < |gone| ==>
          gone[j] in alls[j] && alls[j + 1] == RemoveAt(alls[j], IndexOf(alls[j], gone[j])))
    && (forall j {:trigger gone[j]} :: 0 <= j < |gone| ==>
          && regs[j + 1] == (if gone[j].tag.Some? then regs[j] - {gone[j].tag.value} else regs[j])
          && vals[j + 1] == (if gone[j].tag.Some? then vals[j] - {gone[j].tag.value} else vals[j])
          && obs[j + 1] == Unobserve(obs[j], RowObserver(gone[j]), es[j].hidden, es[j].disabled))
  }

  /**
   * Deleting the rows at positions `start..<end` of the visible rows one by one from all
   * rows, and releasing their tags and observers, ends in `Except` of all rows and in the
   * tables without the rows' tags and observers.
   */
  lemma RemovalPlan(rows: seq<Row>, all: seq<Row>, start: nat, end: nat, es: seq<Entry>,
                    r0: map<string, Row>, v0: Table, o0: Observers.Table<Taggable>)
      returns (alls: seq<seq<Row>>, regs: seq<map<string, Row>>, vals: seq<Table>, obs: seq<Observers.Table<Taggable>>)
    requires Distinct(all) && Subsequence(rows, all) && start <= end <= |rows|
    requires |es| == end - start && forall k :: 0 <= k < end - start ==> es[k].row == rows[start..end][k]
    ensures RemovalSteps(rows[start..end], es, alls, regs, vals, obs)
    ensures alls[0] == all && regs[0] == r0 && vals[0] == v0 && obs[0] == o0
    ensures alls[end - start] == Except(all, rows[start..end]) && Distinct(alls[end - start])
    ensures regs[end - start] == r0 - TagsOf(rows[start..end]) && vals[end - start] == v0 - TagsOf(rows[start..end])
    ensures obs[end - start] == UnobserveEntries(o0, es)
  {
    SliceInAll(rows, all, start, end);
    alls := DeletionTrace(all, rows[start..end]);
    regs, vals, obs := UnregisterTrace(rows[start..end], es, r0, v0, o0);
  }

  /** Before the first pass nothing is unregistered. */
  lemma UnregisteredNothing(r0: map<string, Row>, v0: Table, o0: Observers.Table<Taggable>, rs: seq<Row>, es: seq<Entry>)
    ensures r0 - TagsOf(rs[..0]) == r0 && v0 - TagsOf(rs[..0]) == v0 && UnobserveEntries(o0, es[..0]) == o0
  {
    assert rs[..0] == [] && es[..0] == [];
  }

  /**
   * Row `r` was added to section `s` of form `f`: it points to the section, `stays` says
   * whether it stayed visible, and its conditions were evaluated on `table`.
   */
  ghost predicate AddedRow(f: Form?, s: Section, r: Row, stays: bool, table: Table)
    reads r
  {
    r.section == s && stays == StaysVisible(f, r) && EvaluatedOn(f, r, table)
  }


  /** The tagged rows of `rs` have distinct tags, none of which is in `registry`. */
  ghost predicate FreshIn(rs: seq<Row>, registry: map<string, Row>) {
    forall i :: 0 <= i < |rs| ==> FreshAt(rs, registry, i)
  }

  /** Row `i` of `rs`, if tagged, has a tag outside `registry` that no later row of `rs` has. */
  ghost predicate FreshAt(rs: seq<Row>, registry: map<string, Row>, i: nat)
    requires i < |rs|
  {
    rs[i].tag.Some? ==> rs[i].tag.value !in registry && forall j :: i < j < |rs| ==> rs[j].tag != rs[i].tag
  }

  /** The row-state fields of `r` that adding or removing it leaves alone. */
  twostate predicate RowKept(r: Row)
    reads r
  {
    && r.value == old(r.value)
    && r.hidden == old(r.hidden) && r.disabled == old(r.disabled)
    && r.inlineRow == old(r.inlineRow) && r.inlineParent == old(r.inlineParent)
    && r.selectableValue == old(r.selectableValue) && r.cell == old(r.cell)
  }

  /** Everything of a form but its registry, values and observer table is as it was. */
  twostate predicate FormKeptButRegistry(f: Form)
    reads f
  {
    && f.sections == old(f.sections) && f.allSections == old(f.allSections)
    && f.hasDelegate == old(f.hasDelegate) && f.valueChanges == old(f.valueChanges)
    && f.inlineRowHideOptions == old(f.inlineRowHideOptions)
  }

  /** The form keeps its list of all sections and its delegate state; its visible sections and registry may change. */
  twostate predicate FormKept(f: Form)
    reads f
  {
    && f.allSections == old(f.allSections)
    && f.hasDelegate == old(f.hasDelegate) && f.valueChanges == old(f.valueChanges)
    && f.inlineRowHideOptions == old(f.inlineRowHideOptions)
  }

  /** A row about to be added to the form still has a fresh tag. */
  lemma AddedRowHasFreshTag(base: map<string, Row>, rs: seq<Row>, i: nat)
    requires i < |rs| && FreshIn(rs, base)
    ensures rs[i].tag.Some? ==> rs[i].tag.value !in base + TagRegistry(rs[..i])
  {
    TagRegistrySpec(rs[..i]);
    assert FreshAt(rs, base, i);
    forall k | 0 <= k < i && rs[i].tag.Some? ensures rs[..i][k].tag != rs[i].tag {
      assert FreshAt(rs, base, k);
    }
  }

  /**
   * After the first `i` rows of `s` were added to its form: they point to `s`, and each of
   * them with a hidden condition is visible exactly when its cache says it is not hidden; the
   * other rows are visible exactly when they were in `rows0`.
   */
  ghost predicate RowsAddedUpTo(s: Section, rows0: seq<Row>, i: nat)
    reads s, s.allRows
  {
    && (forall k :: 0 <= k < i && k < |s.allRows| ==> s.allRows[k].section == s)
    && (forall k :: 0 <= k < i && k < |s.allRows| && s.allRows[k].hidden.Some? ==>
          (s.allRows[k] in s.rows <==> !s.allRows[k].hiddenCache))
    && (forall k :: 0 <= k < |s.allRows| && (i <= k || s.allRows[k].hidden.None?) ==>
          (s.allRows[k] in s.rows <==> s.allRows[k] in rows0))
  }

  /** Everything of a section but its visible rows is as it was. */
  twostate predicate SectionKept(s: Section)
    reads s
  {
    && s.allRows == old(s.allRows) && s.form == old(s.form)
    && s.hidden == old(s.hidden) && s.hiddenCache == old(s.hiddenCache)
  }

  /** Everything of a form but its observer table is as it was. */
  twostate predicate FormKeptButObservers(f: Form)
    reads f
  {
    && f.sections == old(f.sections) && f.allSections == old(f.allSections)
    && f.rowsByTag == old(f.rowsByTag) && f.tagToValues == old(f.tagToValues)
    && f.hasDelegate == old(f.hasDelegate) && f.valueChanges == old(f.valueChanges)
    && f.inlineRowHideOptions == old(f.inlineRowHideOptions)
  }

  /** Everything of a form but its visible sections is as it was. */
  twostate predicate FormKeptButSections(f: Form)
    reads f
  {
    && f.allSections == old(f.allSections) && f.rowObservers == old(f.rowObservers)
    && f.rowsByTag == old(f.rowsByTag) && f.tagToValues == old(f.tagToValues)
    && f.hasDelegate == old(f.hasDelegate) && f.valueChanges == old(f.valueChanges)
    && f.inlineRowHideOptions == old(f.inlineRowHideOptions)
  }

  /** Whether a section is visible once evaluated: it has no hidden condition, or it did not hold. */
  predicate SectionShown(s: Section)
    reads s
  {
    s.hidden.None? || !s.hiddenCache
  }

  /** Which of the sections `ss` are visible once evaluated (`SectionShown`), in order. */
  function ShownFlags(ss: seq<Section>): (bs: seq<bool>)
    reads ss
    ensures |bs| == |ss| && forall k :: 0 <= k < |ss| ==> bs[k] == SectionShown(ss[k])
  {
    if ss == [] then [] else ShownFlags(ss[..|ss| - 1]) + [SectionShown(ss[|ss| - 1])]
  }

  /** Flags that agree with the sections one by one are their `ShownFlags`. */
  lemma ShownFlagsAre(ss: seq<Section>, shown: seq<bool>)
    requires |shown| == |ss| && forall k :: 0 <= k < |ss| ==> shown[k] == SectionShown(ss[k])
    ensures shown == ShownFlags(ss)
  {
  }

  /** The section points to the form and each of its rows points back to it. */
  ghost predicate Attached(f: Form, s: Section)
    reads s, s.allRows
  {
    s.form == f && forall j :: 0 <= j < |s.allRows| ==> s.allRows[j].section == s
  }

  /** The row lists `bs` one after another. */
  function Flatten(bs: seq<seq<Row>>): seq<Row> {
    if bs == [] then [] else Flatten(bs[..|bs| - 1]) + bs[|bs| - 1]
  }

  lemma {:induction false} FlattenConcat(a: seq<seq<Row>>, b: seq<seq<Row>>)
    ensures Flatten(a + b) == Flatten(a) + Flatten(b)
  {
    if b != [] {
      assert (a + b)[..|a + b| - 1] == a + b[..|b| - 1];
      FlattenConcat(a, b[..|b| - 1]);
    } else {
      assert a + b == a;
    }
  }

  /** The row lists of the sections `ss`. */
  function RowLists(ss: seq<Section>): (bs: seq<seq<Row>>)
    reads ss
    ensures |bs| == |ss| && forall k :: 0 <= k < |ss| ==> bs[k] == ss[k].allRows
  {
    if ss == [] then [] else RowLists(ss[..|ss| - 1]) + [ss[|ss| - 1].allRows]
  }

  /** The visible row lists of the sections `ss`. */
  function VisibleLists(ss: seq<Section>): (vs: seq<seq<Row>>)
    reads ss
    ensures |vs| == |ss| && forall k :: 0 <= k < |ss| ==> vs[k] == ss[k].rows
  {
    if ss == [] then [] else VisibleLists(ss[..|ss| - 1]) + [ss[|ss| - 1].rows]
  }

  /** Sections keep their row lists exactly when the lists `RowLists` and `VisibleLists` give are kept. */
  lemma SectionsValidByLists(ss: seq<Section>, bs: seq<seq<Row>>, vs: seq<seq<Row>>)
    requires bs == RowLists(ss) && vs == VisibleLists(ss)
    ensures SectionsValid(ss) <==> forall k :: 0 <= k < |ss| ==> Distinct(bs[k]) && Subsequence(vs[k], bs[k])
  {
  }

  lemma {:induction false} EveryRowIsFlatten(ss: seq<Section>)
    ensures EveryRow(ss) == Flatten(RowLists(ss))
  {
    if ss != [] {
      EveryRowIsFlatten(ss[..|ss| - 1]);
      var bs := RowLists(ss);
      assert bs[..|bs| - 1] == RowLists(ss[..|ss| - 1]);
    }
  }

  /** Registering `a + b` is registering `a`, then `b`. */
  lemma {:induction false} RegistryConcat(base: map<string, Row>, a: seq<Row>, b: seq<Row>)
    ensures base + TagRegistry(a + b) == (base + TagRegistry(a)) + TagRegistry(b)
  {
    if b == [] {
      assert a + b == a;
    } else {
      assert (a + b)[..|a + b| - 1] == a + b[..|b| - 1];
      RegistryConcat(base, a, b[..|b| - 1]);
    }
  }

  /** The tags of `a + b` are those of `a` and those of `b`. */
  lemma TagsOfConcat(a: seq<Row>, b: seq<Row>)
    ensures TagsOf(a + b) == TagsOf(a) + TagsOf(b)
  {
    forall t | t in TagsOf(a) + TagsOf(b) ensures t in TagsOf(a + b) {
      if t in TagsOf(a) {
        var k :| 0 <= k < |a| && a[k].tag == Some(t);
        assert (a + b)[k] == a[k];
      } else {
        var k :| 0 <= k < |b| && b[k].tag == Some(t);
        assert (a + b)[|a| + k] == b[k];
      }
    }
  }

  /** Removing two sets of keys one after the other removes their union. */
  lemma SubtractTwice<V>(m: map<string, V>, a: set<string>, b: set<string>)
    ensures (m - a) - b == m - (a + b)
  {
  }

  /** Rows with fresh tags stay fresh once the rows before them are registered. */
  lemma FreshMiddle(a: seq<Row>, b: seq<Row>, c: seq<Row>, m: map<string, Row>)
    requires FreshIn(a + b + c, m)
    ensures FreshIn(b, m + TagRegistry(a))
  {
    var all := a + b + c;
    TagRegistrySpec(a);
    forall i | 0 <= i < |b| ensures FreshAt(b, m + TagRegistry(a), i) {
      assert all[|a| + i] == b[i];
      assert FreshAt(all, m, |a| + i);
      if b[i].tag.Some? {
        forall k | 0 <= k < |a| ensures a[k].tag != b[i].tag {
          assert all[k] == a[k];
          assert FreshAt(all, m, k);
        }
        forall j | i < j < |b| ensures b[j].tag != b[i].tag {
          assert all[|a| + j] == b[j];
        }
      }
    }
  }

  /** The row lists of the sections between `prefix` and `suffix` within `bs`. */
  /**
   * Registering the rows of `bs[i]` after those of the lists before it: they are fresh there,
   * and the registry grows to that of the lists up to `bs[i]`.
   */
  lemma RegistryStep(bs: seq<seq<Row>>, i: nat, r0: map<string, Row>)
    requires i < |bs| && FreshIn(Flatten(bs), r0)
    ensures FreshIn(bs[i], r0 + TagRegistry(Flatten(bs[..i])))
    ensures forall j :: 0 <= j < |bs[i]| ==> bs[i][j] in Flatten(bs)
    ensures r0 + TagRegistry(Flatten(bs[..i + 1])) == (r0 + TagRegistry(Flatten(bs[..i]))) + TagRegistry(bs[i])
  {
    FlattenSplit(bs, i);
    FreshMiddle(Flatten(bs[..i]), bs[i], Flatten(bs[i + 1..]), r0);
    RegistryConcat(r0, Flatten(bs[..i]), bs[i]);
  }

  lemma {:induction false} FlattenSplit(bs: seq<seq<Row>>, i: nat)
    requires i < |bs|
    ensures Flatten(bs) == Flatten(bs[..i]) + bs[i] + Flatten(bs[i + 1..])
    ensures Flatten(bs[..i + 1]) == Flatten(bs[..i]) + bs[i]
  {
    var one := [bs[i]];
    var rest := bs[i + 1..];
    assert one[..0] == [];
    assert Flatten(one) == bs[i];
    assert bs[..i + 1] == bs[..i] + one;
    FlattenConcat(bs[..i], one);
    assert bs == bs[..i + 1] + rest;
    FlattenConcat(bs[..i + 1], rest);
  }

  class Section {
    const tag: Option<string>
    /** The form that holds the section (a weak reference in the source). */
    var form: Form?
    /** The visible rows (`kvoWrapper.rows`). */
    var rows: seq<Row>
    /** Every row, hidden ones included (`kvoWrapper._allRows`). */
    var allRows: seq<Row>
    var hidden: Option<Condition>
    var hiddenCache: bool

    /** The visible rows are an order-preserving subsequence of all rows, which has no duplicates. */
    ghost predicate Valid()
      reads this
    {
      Distinct(allRows) && Subsequence(rows, allRows)
    }

    constructor (tag: Option<string>)
      ensures Valid()
      ensures this.tag == tag && form == null && rows == [] && allRows == []
      ensures hidden == None && !hiddenCache
    {
      this.tag := tag;
      form := null;
      rows := [];
      allRows := [];
      hidden := None;
      hiddenCache := false;
    }

    /**
     * `evaluateHidden` of a section: without a hidden condition or a form nothing happens;
     * otherwise `hiddenCache` becomes the condition's value and the section is hidden in or
     * shown again in the form to match.
     */
    method EvaluateHidden()
      requires form != null ==> form.Valid()
      modifies this`hiddenCache, form
      ensures form != null ==> form.Valid() && FormKeptButSections(form)
      ensures hidden.None? || form == null ==>
        hiddenCache == old(hiddenCache) && (form != null ==> form.sections == old(form.sections))
      ensures hidden.Some? && form != null ==>
        && hiddenCache == Evaluate(hidden.value, form.tagToValues)
        && form.sections == (if hiddenCache then Without(old(form.sections), this)
                             else Show(old(form.sections), form.allSections, this))
        && (this in form.allSections ==> (this in form.sections <==> !hiddenCache))
    {
      if hidden.None? || form == null {
        return;
      }
      hiddenCache := Evaluate(hidden.value, form.tagToValues);
      if hiddenCache {
        form.HideSection(this);
      } else {
        ShowMembership(form.sections, form.allSections, this, this);
        form.ShowSection(this);
      }
    }

    /** `addToRowObservers` of a section: registers it under the tags its hidden condition reads. */
    method AddToRowObservers()
      modifies form
      ensures form != null ==> FormKeptButObservers(form)
      ensures form != null ==> (form.rowObservers ==
        if hidden.None? then old(form.rowObservers)
        else Observers.AddAll(old(form.rowObservers), SectionObserver(this), DependencyTags(hidden.value), Hidden))
    {
      if hidden.Some? && form != null {
        form.AddRowObservers(SectionObserver(this), DependencyTags(hidden.value), Hidden);
      }
    }

    /** `removeFromRowObservers` of a section, with the corrected removal. */
    method RemoveFromRowObservers()
      modifies form
      ensures form != null ==> FormKeptButObservers(form)
      ensures form != null ==> (form.rowObservers ==
        if hidden.None? then old(form.rowObservers)
        else Observers.RemoveAll(old(form.rowObservers), SectionObserver(this), DependencyTags(hidden.value), Hidden))
    {
      if hidden.Some? && form != null {
        form.RemoveRowObservers(SectionObserver(this), DependencyTags(hidden.value), Hidden);
      }
    }

    /** Assigning `hidden` of a section: deregister for the old condition, register for the new one. */
    method SetHidden(c: Option<Condition>)
      modifies this`hidden, form
      ensures hidden == c
      ensures form != null ==> FormKeptButObservers(form)
      ensures form != null ==> (form.rowObservers ==
        var removed := if old(hidden).None? then old(form.rowObservers)
                       else Observers.RemoveAll(old(form.rowObservers), SectionObserver(this),
                                                DependencyTags(old(hidden).value), Hidden);
        if c.None? then removed else Observers.AddAll(removed, SectionObserver(this), DependencyTags(c.value), Hidden))
    {
      RemoveFromRowObservers();
      hidden := c;
      AddToRowObservers();
    }

    /**
     * `wasAddedToForm`: the section points to the form, observes the tags its hidden
     * condition reads and is evaluated against the form's values; then each of its rows,
     * hidden ones included, is added to the form in order. The tags of the rows must be new
     * to the form and distinct, as `wasAddedToFormInSection` asserts.
     */
    method WasAddedToForm(f: Form)
      requires Valid() && f.Valid()
      requires FreshIn(allRows, f.rowsByTag)
      modifies this, f, allRows`section, allRows`hiddenCache, allRows`disabledCache, allRows`isFirstResponder
      ensures Valid() && f.Valid() && form == f
      ensures allRows == old(allRows) && hidden == old(hidden)
      ensures hidden.Some? ==> hiddenCache == Evaluate(hidden.value, old(f.tagToValues))
      ensures hidden.None? ==> hiddenCache == old(hiddenCache) && f.sections == old(f.sections)
      ensures hidden.Some? ==> f.sections == (if hiddenCache then Without(old(f.sections), this)
                                              else Show(old(f.sections), f.allSections, this))
      ensures f.allSections == old(f.allSections)
      ensures f.hasDelegate == old(f.hasDelegate) && f.valueChanges == old(f.valueChanges)
      ensures f.inlineRowHideOptions == old(f.inlineRowHideOptions)
      ensures f.rowsByTag == old(f.rowsByTag) + TagRegistry(allRows)
      ensures f.tagToValues == AssignValues(old(f.tagToValues), old(EntriesOf(allRows)))
      ensures f.rowObservers == ObserveEntries(Observe(old(f.rowObservers), SectionObserver(this), hidden, None), old(EntriesOf(allRows)))
      ensures RowsAddedUpTo(this, old(rows), |allRows|)
    {
      ghost var es := EntriesOf(allRows);
      JoinForm(f);
      assert EntriesOf(allRows) == es;
      AddEachRow(f);
    }

    /** The first steps of `wasAddedToForm`: the section points to the form, observes and is evaluated. */
    method JoinForm(f: Form)
      requires f.Valid()
      modifies this`form, this`hiddenCache, f
      ensures f.Valid() && form == f
      ensures f.allSections == old(f.allSections) && f.rowsByTag == old(f.rowsByTag) && f.tagToValues == old(f.tagToValues)
      ensures f.hasDelegate == old(f.hasDelegate) && f.valueChanges == old(f.valueChanges)
      ensures f.inlineRowHideOptions == old(f.inlineRowHideOptions)
      ensures f.rowObservers == Observe(old(f.rowObservers), SectionObserver(this), hidden, None)
      ensures hidden.Some? ==> hiddenCache == Evaluate(hidden.value, f.tagToValues)
      ensures hidden.None? ==> hiddenCache == old(hiddenCache) && f.sections == old(f.sections)
      ensures hidden.Some? ==> f.sections == (if hiddenCache then Without(old(f.sections), this)
                                              else Show(old(f.sections), f.allSections, this))
    {
      form := f;
      AddToRowObservers();
      EvaluateHidden();
    }

    /**
     * The loop `for row in kvoWrapper._allRows { row.wasAddedToFormInSection(self) }` of
     * `wasAddedToForm`: the rows' tags, values and observers are registered in order, and
     * each row with a hidden condition is visible exactly when the condition does not hold.
     */
    method AddEachRow(f: Form)
      requires Valid() && form == f && FreshIn(allRows, f.rowsByTag)
      modifies this, f, allRows`section, allRows`hiddenCache, allRows`disabledCache, allRows`isFirstResponder
      ensures Valid() && SectionKept(this)
      ensures FormKeptButRegistry(f)
      ensures f.rowsByTag == old(f.rowsByTag) + TagRegistry(allRows)
      ensures f.tagToValues == AssignValues(old(f.tagToValues), old(EntriesOf(allRows)))
      ensures f.rowObservers == ObserveEntries(old(f.rowObservers), old(EntriesOf(allRows)))
      ensures RowsAddedUpTo(this, old(rows), |allRows|)
    {
      ghost var r0, v0, o0 := f.rowsByTag, f.tagToValues, f.rowObservers;
      ghost var es := EntriesOf(allRows);
      ghost var rows0 := rows;
      assert allRows[..0] == [] && es[..0] == [];
      for i := 0 to |allRows|
        invariant Valid() && SectionKept(this) && FormKeptButRegistry(f)
        invariant f.rowsByTag == r0 + TagRegistry(allRows[..i])
        invariant f.tagToValues == AssignValues(v0, es[..i])
        invariant f.rowObservers == ObserveEntries(o0, es[..i])
        invariant RowsAddedUpTo(this, rows0, i)
      {
        AddedRowHasFreshTag(r0, allRows, i);
        TagRegistryStep(r0, allRows, i);
        EntriesStep(v0, o0, es, i);
        AddOneRow(allRows[i], i, rows0);
      }
      assert allRows[..|allRows|] == allRows && es[..|allRows|] == es;
    }

    /** One pass of `AddEachRow`: row `i` is added to the form, the others keep what they had. */
    method AddOneRow(row: Row, i: nat, ghost rows0: seq<Row>)
      requires Valid() && form != null && i < |allRows| && row == allRows[i]
      requires allRows[i].tag.Some? ==> allRows[i].tag.value !in form.rowsByTag
      requires RowsAddedUpTo(this, rows0, i)
      modifies this, form, row`section, row`hiddenCache, row`disabledCache, row`isFirstResponder
      ensures Valid() && SectionKept(this) && FormKeptButRegistry(form)
      ensures form.rowsByTag == Register(old(form.rowsByTag), allRows[i])
      ensures form.tagToValues == Assign(old(form.tagToValues), EntryOf(allRows[i]))
      ensures form.rowObservers == Observe(old(form.rowObservers), RowObserver(allRows[i]), allRows[i].hidden, allRows[i].disabled)
      ensures RowsAddedUpTo(this, rows0, i + 1)
    {
      ghost var before := rows;
      row.WasAddedToFormInSection(this);
      HideShowOthers(before, allRows, row);
      forall k | 0 <= k < |allRows| && k != i
        ensures allRows[k] != row && (allRows[k] in rows <==> allRows[k] in before)
      {
        assert old(allRows[k] != allRows[i]);
      }
    }

    /**
     * `willBeRemovedFromForm`: each row of the section, hidden ones included, leaves the
     * registry and the values and stops observing; then the section stops observing and no
     * longer points to a form. The rows must point back to the section.
     */
    method WillBeRemovedFromForm()
      requires forall k :: 0 <= k < |allRows| ==> allRows[k].section == this
      modifies this`form, form
      ensures form == null
      ensures old(form) != null ==> FormKeptButRegistry(old(form))
      ensures old(form) != null ==>
        && old(form).rowsByTag == old(form.rowsByTag) - TagsOf(allRows)
        && old(form).tagToValues == old(form.tagToValues) - TagsOf(allRows)
        && old(form).rowObservers ==
             Unobserve(UnobserveEntries(old(form.rowObservers), EntriesOf(allRows)), SectionObserver(this), hidden, None)
    {
      UnregisterEachRow(form);
      RemoveFromRowObservers();
      form := null;
    }

    /**
     * The loop `for row in kvoWrapper._allRows { row.willBeRemovedFromForm() }` of
     * `willBeRemovedFromForm`: the rows' tags, values and observers are deregistered in order.
     */
    method UnregisterEachRow(f: Form?)
      requires form == f && forall k :: 0 <= k < |allRows| ==> allRows[k].section == this
      modifies f
      ensures f != null ==> FormKeptButRegistry(f)
      ensures f != null ==>
        && f.rowsByTag == old(f.rowsByTag) - TagsOf(allRows)
        && f.tagToValues == old(f.tagToValues) - TagsOf(allRows)
        && f.rowObservers == UnobserveEntries(old(f.rowObservers), EntriesOf(allRows))
    {
      ghost var r0 := if f == null then map[] else f.rowsByTag;
      ghost var v0 := if f == null then map[] else f.tagToValues;
      ghost var o0 := if f == null then map[] else f.rowObservers;
      ghost var es := EntriesOf(allRows);
      assert allRows[..0] == [] && es[..0] == [];
      assert r0 - {} == r0 && v0 - {} == v0;
      for i := 0 to |allRows|
        invariant f != null ==> FormKeptButRegistry(f) && Unregistered(f, r0, v0, o0, allRows[..i], es[..i])
      {
        UnregisterOne(f, i, r0, v0, o0, es);
      }
      assert allRows[..|allRows|] == allRows && es[..|allRows|] == es;
    }

    /** One pass of `UnregisterEachRow`: row `i` leaves the registry, the values and the observers. */
    method UnregisterOne(f: Form?, i: nat, ghost r0: map<string, Row>, ghost v0: Table, ghost o0: Observers.Table<Taggable>, ghost es: seq<Entry>)
      requires form == f && i < |allRows| && es == EntriesOf(allRows) && allRows[i].section == this
      requires f != null ==> Unregistered(f, r0, v0, o0, allRows[..i], es[..i])
      modifies f
      ensures f != null ==> FormKeptButRegistry(f) && Unregistered(f, r0, v0, o0, allRows[..i + 1], es[..i + 1])
    {
      var row := allRows[i];
      assert row.FormOf() == f && es[i] == EntryOf(row);
      UnregisterStep(r0, v0, o0, allRows, es, i);
      row.WillBeRemovedFromForm();
    }

    /**
     * `removeAll`: every row, hidden ones included, is removed from the form (its tag leaves
     * both tables and its conditions stop observing), then both lists are emptied.
     */
    method RemoveAll()
      requires forall k :: 0 <= k < |allRows| ==> allRows[k].section == this
      modifies this`rows, this`allRows, form
      ensures rows == [] && allRows == [] && Valid()
      ensures form != null ==> FormKeptButRegistry(form)
      ensures form != null ==>
        && form.rowsByTag == old(form.rowsByTag) - TagsOf(old(allRows))
        && form.tagToValues == old(form.tagToValues) - TagsOf(old(allRows))
        && form.rowObservers == UnobserveEntries(old(form.rowObservers), old(EntriesOf(allRows)))
    {
      UnregisterEachRow(form);
      rows := [];
      allRows := [];
    }

    /** `append`: the row goes at the end of both lists, then it is added to the form. */
    method Append(row: Row)
      requires Valid() && row !in allRows
      requires form != null ==> FreshIn([row], form.rowsByTag)
      modifies this, form, row`section, row`hiddenCache, row`disabledCache, row`isFirstResponder
      ensures Valid() && form == old(form) && hidden == old(hidden) && hiddenCache == old(hiddenCache)
      ensures allRows == old(allRows) + [row]
      ensures rows == old(rows) + (if StaysVisible(form, row) then [row] else [])
      ensures row.section == this
      ensures form != null ==> EvaluatedOn(form, row, form.tagToValues)
      ensures form != null ==> FormKeptButRegistry(form)
      ensures form != null ==>
        Registered(form, old(form.rowsByTag), old(form.tagToValues), old(form.rowObservers), [row], [old(EntryOf(row))])
    {
      DistinctConcat(allRows, [row]);
      AppendKeepsSubsequence(rows, allRows, [row]);
      ghost var before := rows;
      ghost var entries := [EntryOf(row)];
      rows := rows + [row];
      allRows := allRows + [row];
      assert rows == before + [row] + [];
      AddRowsToForm([row], before, []);
      assert [row][..0] == [] && entries[..1] == entries;
    }

    /**
     * `appendContentsOf`: the rows go at the end of both lists, then each is added to the
     * form in order. The rows already there keep their places; of the new rows, those whose
     * hidden condition holds once they are registered drop out of the visible rows.
     */
    method AppendContentsOf(newRows: seq<Row>)
      requires Valid() && Distinct(allRows + newRows)
      requires form != null ==> FreshIn(newRows, form.rowsByTag)
      modifies this, form, newRows`section, newRows`hiddenCache, newRows`disabledCache, newRows`isFirstResponder
      ensures Valid() && form == old(form) && hidden == old(hidden) && hiddenCache == old(hiddenCache)
      ensures allRows == old(allRows) + newRows
      ensures rows == old(rows) + Staying(form, newRows)
      ensures forall k :: 0 <= k < |newRows| ==> newRows[k].section == this
      ensures form != null ==> forall k :: 0 <= k < |newRows| ==>
        EvaluatedOn(form, newRows[k], AssignValues(old(form.tagToValues), old(EntriesOf(newRows))[..k + 1]))
      ensures form != null ==> FormKeptButRegistry(form)
      ensures form != null ==> Registered(form, old(form.rowsByTag), old(form.tagToValues), old(form.rowObservers),
                                          newRows, old(EntriesOf(newRows)))
    {
      DistinctConcat(allRows, newRows);
      AppendKeepsSubsequence(rows, allRows, newRows);
      ghost var before := rows;
      rows := rows + newRows;
      allRows := allRows + newRows;
      assert rows == before + newRows + [];
      AddRowsToForm(newRows, before, []);
    }

    /**
     * The loop `for row in newElements { row.wasAddedToFormInSection(self) }` that ends
     * `appendContentsOf` and `replaceRange`, for rows that sit together among the visible
     * rows, between `prefix` and `suffix`.
     */
    method AddRowsToForm(newRows: seq<Row>, ghost prefix: seq<Row>, ghost suffix: seq<Row>)
      requires Valid() && rows == prefix + newRows + suffix
      requires form != null ==> FreshIn(newRows, form.rowsByTag)
      modifies this, form, newRows`section, newRows`hiddenCache, newRows`disabledCache, newRows`isFirstResponder
      ensures Valid() && SectionKept(this)
      ensures rows == prefix + Staying(form, newRows) + suffix
      ensures forall k :: 0 <= k < |newRows| ==> newRows[k].section == this
      ensures form != null ==> forall k :: 0 <= k < |newRows| ==>
        EvaluatedOn(form, newRows[k], AssignValues(old(form.tagToValues), old(EntriesOf(newRows))[..k + 1]))
      ensures form != null ==> FormKeptButRegistry(form)
      ensures form != null ==> Registered(form, old(form.rowsByTag), old(form.tagToValues), old(form.rowObservers),
                                          newRows, old(EntriesOf(newRows)))
    {
      ghost var es := EntriesOf(newRows);
      ghost var registry := if form == null then map[] else form.rowsByTag;
      ghost var values := if form == null then map[] else form.tagToValues;
      ghost var observers := if form == null then map[] else form.rowObservers;
      ghost var regs := RegistryTrace(registry, newRows);
      ghost var vals := ValueTrace(values, es);
      ghost var obs := ObserverTrace(observers, es);
      if form != null {
        RegistryTraceFresh(registry, newRows);
      }
      BlockIsolated(rows, allRows, prefix, newRows, suffix);
      SelectStart(prefix, newRows, suffix);
      ghost var shown := AddRowsInOrder(newRows, prefix, suffix, es, regs, vals, obs);
      assert newRows[..|newRows|] == newRows && es[..|newRows|] == es;
      AddedAll(form, this, newRows, shown, values, es);
      RegistryTraceAt(registry, newRows, |newRows|);
      ValueTraceAt(values, es, |newRows|);
      ObserverTraceLast(observers, es);
    }

    /**
     * The loop of `AddRowsToForm` over the rows `newRows`, whose entries are `es`; pass `i`
     * takes the tables of the form from `regs[i]`, `vals[i]`, `obs[i]` to the next trace
     * element, and `shown` says which rows stayed visible.
     */
    method AddRowsInOrder(newRows: seq<Row>, ghost prefix: seq<Row>, ghost suffix: seq<Row>, ghost es: seq<Entry>,
                          ghost regs: seq<map<string, Row>>, ghost vals: seq<Table>,
                          ghost obs: seq<Observers.Table<Taggable>>)
        returns (ghost shown: seq<bool>)
      requires Valid() && rows == prefix + Select(newRows[..0], []) + newRows[0..] + suffix
      requires forall i {:trigger Isolated(prefix, newRows, suffix, i)} :: 0 <= i < |newRows| ==> Isolated(prefix, newRows, suffix, i)
      requires es == EntriesOf(newRows) && |regs| == |vals| == |obs| == |newRows| + 1
      requires forall k {:trigger newRows[k]} :: 0 <= k < |newRows| ==> regs[k + 1] == Register(regs[k], newRows[k])
      requires forall k {:trigger es[k]} :: 0 <= k < |es| ==> vals[k + 1] == Assign(vals[k], es[k])
      requires forall k {:trigger es[k]} :: 0 <= k < |es| ==>
        obs[k + 1] == Observe(obs[k], RowObserver(es[k].row), es[k].hidden, es[k].disabled)
      requires form != null ==> forall k {:trigger newRows[k]} :: 0 <= k < |newRows| && newRows[k].tag.Some? ==>
        newRows[k].tag.value !in regs[k]
      requires form != null ==> form.rowsByTag == regs[0] && form.tagToValues == vals[0] && form.rowObservers == obs[0]
      modifies this, form, newRows`section, newRows`hiddenCache, newRows`disabledCache, newRows`isFirstResponder
      ensures Valid() && SectionKept(this) && |shown| == |newRows|
      ensures rows == prefix + Select(newRows, shown) + suffix
      ensures forall k {:trigger newRows[k]} :: 0 <= k < |newRows| ==> AddedRow(form, this, newRows[k], shown[k], vals[k + 1])
      ensures form != null ==> FormKeptButRegistry(form)
      ensures form != null ==>
        form.rowsByTag == regs[|newRows|] && form.tagToValues == vals[|newRows|] && form.rowObservers == obs[|newRows|]
    {
      shown := [];
      for i := 0 to |newRows|
        invariant Valid() && SectionKept(this)
        invariant |shown| == i
        invariant rows == prefix + Select(newRows[..i], shown) + newRows[i..] + suffix
        invariant forall k {:trigger newRows[k]} :: 0 <= k < i ==> AddedRow(form, this, newRows[k], shown[k], vals[k + 1])
        invariant form != null ==> FormKeptButRegistry(form)
        invariant form != null ==> form.rowsByTag == regs[i] && form.tagToValues == vals[i] && form.rowObservers == obs[i]
      {
        var row := newRows[i];
        assert es[i] == EntryOf(row);
        ghost var stays := AddRowPass(row, newRows, i, prefix, suffix, shown, regs, vals, obs);
        shown := shown + [stays];
      }
      SelectEnd(prefix, newRows, suffix, shown);
    }

    /**
     * One pass of the loop of `AddRowsInOrder`: the row at position `i` of `newRows` is added
     * and stays among the visible rows or not, as `stays` says.
     */
    method AddRowPass(row: Row, newRows: seq<Row>, i: nat, ghost prefix: seq<Row>, ghost suffix: seq<Row>,
                      ghost shown: seq<bool>, ghost regs: seq<map<string, Row>>, ghost vals: seq<Table>,
                      ghost obs: seq<Observers.Table<Taggable>>)
        returns (ghost stays: bool)
      requires i < |newRows| && row == newRows[i] && |shown| == i
      requires i + 1 < |regs| && i + 1 < |vals| && i + 1 < |obs|
      requires Isolated(prefix, newRows, suffix, i)
      requires Valid() && rows == prefix + Select(newRows[..i], shown) + newRows[i..] + suffix
      requires forall k {:trigger newRows[k]} :: 0 <= k < i ==> AddedRow(form, this, newRows[k], shown[k], vals[k + 1])
      requires form != null ==> form.rowsByTag == regs[i] && form.tagToValues == vals[i] && form.rowObservers == obs[i]
      requires form != null && row.tag.Some? ==> row.tag.value !in regs[i]
      requires regs[i + 1] == Register(regs[i], row) && vals[i + 1] == Assign(vals[i], EntryOf(row))
      requires obs[i + 1] == Observe(obs[i], RowObserver(row), row.hidden, row.disabled)
      modifies row`section, row`hiddenCache, row`disabledCache, row`isFirstResponder, this, form
      ensures Valid() && SectionKept(this)
      ensures rows == prefix + Select(newRows[..i + 1], shown + [stays]) + newRows[i + 1..] + suffix
      ensures forall k {:trigger newRows[k]} :: 0 <= k <= i ==> AddedRow(form, this, newRows[k], (shown + [stays])[k], vals[k + 1])
      ensures form != null ==> FormKeptButRegistry(form)
      ensures form != null ==> form.rowsByTag == regs[i + 1] && form.tagToValues == vals[i + 1] && form.rowObservers == obs[i + 1]
    {
      SelectAt(prefix, newRows, suffix, shown);
      AddRowAt(row, newRows, i, shown, regs, vals, obs);
      stays := StaysVisible(form, row);
      SelectStep(prefix, newRows, suffix, shown, stays);
    }

    /**
     * One pass of the loop of `AddRowsToForm`: the row at position `i` of `newRows` is added,
     * the rows before it keep what their passes established, and the tables of the form go
     * from `regs[i]`, `vals[i]`, `obs[i]` to `regs[i + 1]`, `vals[i + 1]`, `obs[i + 1]`.
     */
    method AddRowAt(row: Row, newRows: seq<Row>, i: nat, ghost shown: seq<bool>, ghost regs: seq<map<string, Row>>,
                    ghost vals: seq<Table>, ghost obs: seq<Observers.Table<Taggable>>)
      requires i < |newRows| && row == newRows[i] && |shown| == i
      requires i + 1 < |regs| && i + 1 < |vals| && i + 1 < |obs|
      requires Valid() && row in rows && row !in newRows[..i]
      requires forall k {:trigger newRows[k]} :: 0 <= k < i ==> AddedRow(form, this, newRows[k], shown[k], vals[k + 1])
      requires form != null ==> form.rowsByTag == regs[i] && form.tagToValues == vals[i] && form.rowObservers == obs[i]
      requires form != null && row.tag.Some? ==> row.tag.value !in regs[i]
      requires regs[i + 1] == Register(regs[i], row) && vals[i + 1] == Assign(vals[i], EntryOf(row))
      requires obs[i + 1] == Observe(obs[i], RowObserver(row), row.hidden, row.disabled)
      modifies row`section, row`hiddenCache, row`disabledCache, row`isFirstResponder, this, form
      ensures Valid() && SectionKept(this)
      ensures rows == if StaysVisible(form, row) then old(rows) else Without(old(rows), row)
      ensures forall k {:trigger newRows[k]} :: 0 <= k <= i ==>
        AddedRow(form, this, newRows[k], (shown + [StaysVisible(form, row)])[k], vals[k + 1])
      ensures form != null ==> FormKeptButRegistry(form)
      ensures form != null ==> form.rowsByTag == regs[i + 1] && form.tagToValues == vals[i + 1] && form.rowObservers == obs[i + 1]
    {
      forall k | 0 <= k < i ensures newRows[k] != row {
        assert newRows[..i][k] == newRows[k];
      }
      AddToForm(row);
    }

    /**
     * `row.wasAddedToFormInSection(self)` for a visible row of the section: the row stays
     * visible unless the section is in a form and the row's hidden condition holds.
     */
    method AddToForm(row: Row)
      requires Valid() && row in rows
      requires form != null && row.tag.Some? ==> row.tag.value !in form.rowsByTag
      modifies row`section, row`hiddenCache, row`disabledCache, row`isFirstResponder, this, form
      ensures Valid() && SectionKept(this) && row.section == this
      ensures rows == if StaysVisible(form, row) then old(rows) else Without(old(rows), row)
      ensures form != null ==> EvaluatedOn(form, row, form.tagToValues)
      ensures form != null ==> FormKeptButRegistry(form)
      ensures form != null ==>
        && form.rowsByTag == (if row.tag.Some? then old(form.rowsByTag)[row.tag.value := row] else old(form.rowsByTag))
        && form.tagToValues == (if row.tag.Some? then old(form.tagToValues)[row.tag.value := row.value] else old(form.tagToValues))
        && form.rowObservers == Observe(old(form.rowObservers), RowObserver(row), row.hidden, row.disabled)
    {
      row.WasAddedToFormInSection(this);
    }

    /**
     * `indexForInsertionAtIndex`: where in all rows the rows placed at visible position
     * `index` go: first for 0, else right after the row visible at `index - 1`.
     */
    function IndexForInsertionAtIndex(index: nat): (i: nat)
      requires index <= |rows|
      reads this
      ensures i <= |allRows|
      ensures index == 0 ==> i == 0
      ensures index > 0 && rows[index - 1] in allRows ==> i == IndexOf(allRows, rows[index - 1]) + 1
      ensures index > 0 && rows[index - 1] !in allRows ==> i == |allRows|
    {
      InsertionIndex(rows, allRows, index)
    }

    /**
     * `replaceRange`: the visible rows at positions `start..<end` leave the form and all
     * rows, the visible range is replaced by `newRows`, which go into all rows right after
     * the visible predecessor of the range, and are then added to the form in order. The
     * rows removed must point back to this section, the new rows must be new to it, and
     * their tags must be free once the removed rows' tags are released.
     */
    method ReplaceRange(start: nat, end: nat, newRows: seq<Row>)
      requires Valid() && start <= end <= |rows|
      requires forall k :: start <= k < end ==> rows[k].section == this
      requires Distinct(newRows) && forall k :: 0 <= k < |newRows| ==> newRows[k] !in Except(allRows, rows[start..end])
      requires form != null ==> FreshIn(newRows, form.rowsByTag - TagsOf(rows[start..end]))
      modifies this, form, newRows`section, newRows`hiddenCache, newRows`disabledCache, newRows`isFirstResponder
      ensures form == old(form) && hidden == old(hidden) && hiddenCache == old(hiddenCache)
      ensures forall k :: 0 <= k < |newRows| ==> newRows[k].section == this
      ensures form != null ==> FormKeptButRegistry(form)
      ensures form != null ==>
        Registered(form, old(form.rowsByTag - TagsOf(rows[start..end])), old(form.tagToValues - TagsOf(rows[start..end])),
                   old(UnobserveEntries(form.rowObservers, EntriesOf(rows[start..end]))), newRows, old(EntriesOf(newRows)))
      ensures rows == old(rows)[..start] + Staying(form, newRows) + old(rows)[end..]
      ensures allRows == ReplaceAll(old(rows), old(allRows), start, end, newRows)
      ensures Valid()
    {
      ghost var rows0, all0 := rows, allRows;
      ghost var es := EntriesOf(newRows);
      RemoveRowsInRange(start, end);
      assert EntriesOf(newRows) == es;
      InsertRowsInRange(start, end, newRows, rows0, all0);
    }

    /**
     * The second half of `replaceRange`, once the rows at positions `start..<end` of the
     * visible rows `rows0` have been deleted from all rows `all0`: the visible range is
     * replaced, the new rows go into all rows and are added to the form.
     */
    method InsertRowsInRange(start: nat, end: nat, newRows: seq<Row>, ghost rows0: seq<Row>, ghost all0: seq<Row>)
      requires start <= end <= |rows0| && rows == rows0 && allRows == Except(all0, rows0[start..end])
      requires Distinct(all0) && Subsequence(rows0, all0)
      requires Distinct(newRows) && forall k :: 0 <= k < |newRows| ==> newRows[k] !in allRows
      requires form != null ==> FreshIn(newRows, form.rowsByTag)
      modifies this, form, newRows`section, newRows`hiddenCache, newRows`disabledCache, newRows`isFirstResponder
      ensures form == old(form) && hidden == old(hidden) && hiddenCache == old(hiddenCache)
      ensures forall k :: 0 <= k < |newRows| ==> newRows[k].section == this
      ensures form != null ==> FormKeptButRegistry(form)
      ensures form != null ==> Registered(form, old(form.rowsByTag), old(form.tagToValues), old(form.rowObservers),
                                          newRows, old(EntriesOf(newRows)))
      ensures rows == rows0[..start] + Staying(form, newRows) + rows0[end..]
      ensures allRows == ReplaceAll(rows0, all0, start, end, newRows)
      ensures Valid()
    {
      ghost var es := EntriesOf(newRows);
      SpliceRows(start, end, newRows, rows0, all0);
      assert EntriesOf(newRows) == es;
      AddRowsToForm(newRows, rows0[..start], rows0[end..]);
    }

    /**
     * The list updates of `replaceRange`: the visible range is replaced by `newRows`, which
     * go into all rows at `indexForInsertionAtIndex(start)`.
     */
    method SpliceRows(start: nat, end: nat, newRows: seq<Row>, ghost rows0: seq<Row>, ghost all0: seq<Row>)
      requires start <= end <= |rows0| && rows == rows0 && allRows == Except(all0, rows0[start..end])
      requires Distinct(all0) && Subsequence(rows0, all0)
      requires Distinct(newRows) && forall k :: 0 <= k < |newRows| ==> newRows[k] !in allRows
      modifies this`rows, this`allRows
      ensures Valid() && rows == rows0[..start] + newRows + rows0[end..]
      ensures allRows == ReplaceAll(rows0, all0, start, end, newRows)
    {
      ReplaceKeepsSubsequence(rows0, all0, start, end, newRows);
      rows := rows[..start] + newRows + rows[end..];
      allRows := InsertAllAt(allRows, IndexForInsertionAtIndex(start), newRows);
      assert rows == ReplaceVisible(rows0, start, end, newRows);
    }

    /**
     * The first loop of `replaceRange`: each visible row at positions `start..<end` is
     * removed from the form and deleted from all rows; the visible rows are left as they are.
     */
    method RemoveRowsInRange(start: nat, end: nat)
      requires Valid() && start <= end <= |rows|
      requires forall k :: start <= k < end ==> rows[k].section == this
      modifies this`allRows, form
      ensures rows == old(rows) && allRows == Except(old(allRows), rows[start..end]) && Distinct(allRows)
      ensures form != null ==> FormKeptButRegistry(form)
      ensures form != null ==> Unregistered(form, old(form.rowsByTag), old(form.tagToValues), old(form.rowObservers),
                                            rows[start..end], old(EntriesOf(rows[start..end])))
    {
      ghost var gone := rows[start..end];
      ghost var es := EntriesOf(gone);
      ghost var r0 := if form == null then map[] else form.rowsByTag;
      ghost var v0 := if form == null then map[] else form.tagToValues;
      ghost var o0 := if form == null then map[] else form.rowObservers;
      ghost var alls, regs, vals, obs := RemovalPlan(rows, allRows, start, end, es, r0, v0, o0);
      RemoveEachRow(start, end, gone, es, alls, regs, vals, obs);
    }

    /** The loop of `RemoveRowsInRange`, over the rows `gone` at positions `start..<end`. */
    method RemoveEachRow(start: nat, end: nat, ghost gone: seq<Row>, ghost es: seq<Entry>, ghost alls: seq<seq<Row>>,
                         ghost regs: seq<map<string, Row>>, ghost vals: seq<Table>, ghost obs: seq<Observers.Table<Taggable>>)
      requires start <= end <= |rows| && gone == rows[start..end]
      requires forall k :: start <= k < end ==> rows[k].section == this
      requires es == EntriesOf(gone) && RemovalSteps(gone, es, alls, regs, vals, obs)
      requires allRows == alls[0]
      requires form != null ==> form.rowsByTag == regs[0] && form.tagToValues == vals[0] && form.rowObservers == obs[0]
      modifies this`allRows, form
      ensures allRows == alls[|gone|]
      ensures form != null ==> FormKeptButRegistry(form)
      ensures form != null ==>
        form.rowsByTag == regs[|gone|] && form.tagToValues == vals[|gone|] && form.rowObservers == obs[|gone|]
    {
      for j := 0 to end - start
        invariant allRows == alls[j]
        invariant form != null ==> FormKeptButRegistry(form)
        invariant form != null ==> form.rowsByTag == regs[j] && form.tagToValues == vals[j] && form.rowObservers == obs[j]
      {
        var row := rows[start + j];
        assert row == gone[j] && es[j] == EntryOf(row);
        RemoveRowAt(row, regs[j], vals[j], obs[j]);
      }
    }

    /** One pass of the first loop of `replaceRange`: `row` leaves the form and all rows. */
    method RemoveRowAt(row: Row, ghost r: map<string, Row>, ghost v: Table, ghost o: Observers.Table<Taggable>)
      requires row in allRows && row.section == this
      requires form != null ==> form.rowsByTag == r && form.tagToValues == v && form.rowObservers == o
      modifies this`allRows, form
      ensures allRows == RemoveAt(old(allRows), IndexOf(old(allRows), row))
      ensures form != null ==> FormKeptButRegistry(form)
      ensures form != null ==> form.rowsByTag == (if row.tag.Some? then r - {row.tag.value} else r)
      ensures form != null ==> form.tagToValues == (if row.tag.Some? then v - {row.tag.value} else v)
      ensures form != null ==> form.rowObservers == Unobserve(o, RowObserver(row), row.hidden, row.disabled)
    {
      row.WillBeRemovedFromForm();
      allRows := RemoveAt(allRows, IndexOf(allRows, row));
    }

    /** `rowByTag`: the first row with the tag, whether hidden or visible. */
    function RowByTag(t: string): (r: Option<Row>)
      reads this, allRows
      ensures r.Some? ==> r.value in allRows && r.value.tag == Some(t)
      ensures r.None? ==> forall k :: 0 <= k < |allRows| ==> allRows[k].tag != Some(t)
    {
      FirstWithTag(allRows, (row: Row) => row.tag, t)
    }

    /**
     * `hideRow`: the row's cell resigns first responder and the row leaves the visible
     * rows (every occurrence, as `removeObject` does); all rows are untouched.
     */
    method HideRow(row: Row)
      requires Valid()
      modifies this`rows, row`isFirstResponder
      ensures Valid()
      ensures rows == Without(old(rows), row) && !row.isFirstResponder
    {
      row.isFirstResponder := false;
      WithoutKeepsSubsequence(rows, allRows, row);
      rows := Without(rows, row);
    }

    /**
     * `showRow`: a no-op for a visible row or a row the section does not hold; otherwise the
     * row is inserted right after its nearest visible predecessor in all rows, or first.
     */
    method ShowRow(row: Row)
      requires Valid()
      modifies this`rows
      ensures Valid()
      ensures rows == Show(old(rows), allRows, row)
    {
      if row in rows {
        return;
      }
      if row !in allRows {
        return;
      }
      var formIndex := FindVisiblePredecessor(rows, allRows, IndexOf(allRows, row));
      ShowKeepsSubsequence(rows, allRows, row);
      rows := InsertAt(rows, if formIndex.None? then 0 else formIndex.value + 1, row);
    }
  }

  /** The row after the first occurrence of `r` in `rows`, if any. */
  function NextIn(rows: seq<Row>, r: Row): (n: Option<Row>)
    ensures n.Some? ==> r in rows && IndexOf(rows, r) + 1 < |rows| && n.value == rows[IndexOf(rows, r) + 1]
    ensures n.None? <==> r !in rows || IndexOf(rows, r) == |rows| - 1
  {
    if r !in rows then None
    else
      var index := IndexOf(rows, r);
      if index < |rows| - 1 then Some(rows[index + 1]) else None
  }

  /** The row before the first occurrence of `r` in `rows`, if any. */
  function PreviousIn(rows: seq<Row>, r: Row): (p: Option<Row>)
    ensures p.Some? ==> r in rows && IndexOf(rows, r) > 0 && p.value == rows[IndexOf(rows, r) - 1]
    ensures p.None? <==> r !in rows || IndexOf(rows, r) == 0
  {
    if r !in rows then None
    else
      var index := IndexOf(rows, r);
      if index > 0 then Some(rows[index - 1]) else None
  }

  class Form {
    /** The visible sections (`kvoWrapper.sections`). */
    var sections: seq<Section>
    /** Every section, hidden ones included (`kvoWrapper._allSections`). */
    var allSections: seq<Section>
    var rowsByTag: map<string, Row>
    /** The values the conditions are evaluated against; None stands for NSNull. */
    var tagToValues: Table
    var rowObservers: Observers.Table<Taggable>
    /** Whether the form has a delegate. */
    var hasDelegate: bool
    /** The rows reported to the delegate by `rowValueHasBeenChanged`, in order. */
    var valueChanges: seq<Row>
    /** `inlineRowHideOptions` (None: `defaultInlineRowHideOptions` applies). */
    var inlineRowHideOptions: Option<Options.Bits>

    /** The section lists are kept like the row lists. */
    ghost predicate Valid()
      reads this
    {
      Distinct(allSections) && Subsequence(sections, allSections)
    }

    /** The section lists and the row lists of every section are kept. */
    ghost predicate Consistent()
      reads this, allSections
    {
      Valid() && SectionsValid(allSections)
    }

    constructor ()
      ensures Valid()
      ensures sections == [] && allSections == [] && rowsByTag == map[] && tagToValues == map[]
      ensures rowObservers == map[] && !hasDelegate && valueChanges == [] && inlineRowHideOptions == None
    {
      sections := [];
      allSections := [];
      rowsByTag := map[];
      tagToValues := map[];
      rowObservers := map[];
      hasDelegate := false;
      valueChanges := [];
      inlineRowHideOptions := None;
    }

    /** `rowByTag`: the registry lookup. */
    function RowByTag(t: string): (r: Option<Row>)
      reads this
      ensures r.Some? <==> t in rowsByTag
      ensures r.Some? ==> r.value == rowsByTag[t]
    {
      if t in rowsByTag then Some(rowsByTag[t]) else None
    }

    /** `sectionByTag`: the first section with the tag, hidden sections included. */
    function SectionByTag(t: string): (r: Option<Section>)
      reads this, allSections
      ensures r.Some? ==> r.value in allSections && r.value.tag == Some(t)
      ensures r.Some? ==> forall k :: 0 <= k < IndexOf(allSections, r.value) ==> allSections[k].tag != Some(t)
      ensures r.None? ==> forall k :: 0 <= k < |allSections| ==> allSections[k].tag != Some(t)
    {
      FirstWithTag(allSections, (section: Section) => section.tag, t)
    }

    /** `rows`: the visible rows of the visible sections. */
    function Rows(): seq<Row>
      reads this, sections
    {
      VisibleRows(sections)
    }

    /** `allRows`: every row of every section, hidden ones included. */
    function AllRows(): seq<Row>
      reads this, allSections
    {
      EveryRow(allSections)
    }

    /** The rows a value query reads: the visible ones are among all of them. */
    lemma RowsAreRows()
      requires Consistent()
      ensures forall i :: 0 <= i < |Rows()| ==> Rows()[i] in AllRows()
    {
      EveryRowSpec(allSections);
      forall i | 0 <= i < |Rows()| ensures Rows()[i] in AllRows() {
        var r := Rows()[i];
        var k :| 0 <= k < |sections| && r in sections[k].rows;
        var s := sections[k];
        assert s in allSections;
        var j := IndexOf(allSections, s);
        assert allSections[j].Valid();
        assert r in allSections[j].allRows;
        assert allSections[j].allRows[IndexOf(allSections[j].allRows, r)] == r;
      }
    }

    /**
     * `values(includeHidden:)`: tag to value for the tagged rows, visible ones only unless
     * hidden rows are included; a later row overrides an earlier one with the same tag.
     */
    function Values(includeHidden: bool): (m: Table)
      reads this, sections, allSections, AllRows(), Rows()
      ensures ValuesOf(m, if includeHidden then AllRows() else Rows())
    {
      var rs := if includeHidden then AllRows() else Rows();
      TaggedValuesSpec(rs);
      TaggedValues(rs)
    }

    /** `hideSection`: the section leaves the visible sections. */
    method HideSection(s: Section)
      requires Valid()
      modifies this`sections
      ensures Valid()
      ensures sections == Without(old(sections), s)
    {
      WithoutKeepsSubsequence(sections, allSections, s);
      sections := Without(sections, s);
    }

    /**
     * `showSection`: a no-op for a visible section or one the form does not hold; otherwise
     * the section is inserted right after its nearest visible predecessor, or first.
     */
    method ShowSection(s: Section)
      requires Valid()
      modifies this`sections
      ensures Valid()
      ensures sections == Show(old(sections), allSections, s)
    {
      if s in sections {
        return;
      }
      if s !in allSections {
        return;
      }
      var formIndex := FindVisiblePredecessor(sections, allSections, IndexOf(allSections, s));
      ShowKeepsSubsequence(sections, allSections, s);
      sections := InsertAt(sections, if formIndex.None? then 0 else formIndex.value + 1, s);
    }

    /** `addRowObservers`: registers the observer under each tag, once per (tag, type). */
    method AddRowObservers(taggable: Taggable, rowTags: seq<string>, ty: ConditionType)
      modifies this`rowObservers
      ensures rowObservers == Observers.AddAll(old(rowObservers), taggable, rowTags, ty)
    {
      ghost var t0 := rowObservers;
      for i := 0 to |rowTags|
        invariant rowObservers == Observers.AddAll(t0, taggable, rowTags[..i], ty)
      {
        var rowTag := rowTags[i];
        if rowTag !in rowObservers {
          rowObservers := rowObservers[rowTag := map[]];
        }
        if ty in rowObservers[rowTag] {
          if taggable !in rowObservers[rowTag][ty] {
            rowObservers := rowObservers[rowTag := rowObservers[rowTag][ty := rowObservers[rowTag][ty] + [taggable]]];
          }
        } else {
          rowObservers := rowObservers[rowTag := rowObservers[rowTag][ty := [taggable]]];
        }
        assert rowTags[..i + 1][..i] == rowTags[..i];
      }
      assert rowTags[..|rowTags|] == rowTags;
    }

    /**
     * `removeRowObservers` as written: each pass removes the observer from `arr`, a copy of
     * the stored list, which is then dropped, so the observer table comes out as it was.
     */
    method RemoveRowObserversAsWritten(taggable: Taggable, rowTags: seq<string>, ty: ConditionType)
      returns (table: Observers.Table<Taggable>)
      ensures table == Observers.RemoveAllAsWritten(rowObservers, taggable, rowTags, ty)
    {
      for i := 0 to |rowTags|
      {
        var row := rowTags[i];
        if row in rowObservers && ty in rowObservers[row] && taggable in rowObservers[row][ty] {
          var arr := rowObservers[row][ty];
          var index := IndexOf(arr, taggable);
          arr := RemoveAt(arr, index);
        }
      }
      table := rowObservers;
      Observers.RemoveAllAsWrittenIsIdentity(rowObservers, taggable, rowTags, ty);
    }

    /**
     * `removeRowObservers` as evidently intended: each pass removes the observer from the
     * stored list of (tag, type).
     */
    method RemoveRowObservers(taggable: Taggable, rowTags: seq<string>, ty: ConditionType)
      modifies this`rowObservers
      ensures rowObservers == Observers.RemoveAll(old(rowObservers), taggable, rowTags, ty)
    {
      ghost var t0 := rowObservers;
      for i := 0 to |rowTags|
        invariant rowObservers == Observers.RemoveAll(t0, taggable, rowTags[..i], ty)
      {
        var row := rowTags[i];
        if row in rowObservers && ty in rowObservers[row] && taggable in rowObservers[row][ty] {
          var arr := rowObservers[row][ty];
          var index := IndexOf(arr, taggable);
          arr := RemoveAt(arr, index);
          rowObservers := rowObservers[row := rowObservers[row][ty := arr]];
        }
        assert rowTags[..i + 1][..i] == rowTags[..i];
      }
      assert rowTags[..|rowTags|] == rowTags;
    }

    /**
     * `indexForInsertionAtIndex`: where in all sections the sections placed at visible
     * position `index` go: first for 0, else right after the section visible at `index - 1`.
     */
    function IndexForInsertionAtIndex(index: nat): (i: nat)
      requires index <= |sections|
      reads this
      ensures i <= |allSections|
      ensures index == 0 ==> i == 0
      ensures index > 0 && sections[index - 1] in allSections ==> i == IndexOf(allSections, sections[index - 1]) + 1
      ensures index > 0 && sections[index - 1] !in allSections ==> i == |allSections|
    {
      InsertionIndex(sections, allSections, index)
    }

    /**
     * `append`: the section goes at the end of both section lists and is added to the form,
     * where it stays visible unless its hidden condition holds on the form's values; then its
     * rows are registered in order.
     */
    method Append(s: Section)
      requires Valid() && s.Valid() && s !in allSections
      requires FreshIn(s.allRows, rowsByTag)
      modifies this, s, s.allRows`section, s.allRows`hiddenCache, s.allRows`disabledCache, s.allRows`isFirstResponder
      ensures Valid() && s.Valid() && s.form == this && s.allRows == old(s.allRows) && s.hidden == old(s.hidden)
      ensures allSections == old(allSections) + [s]
      ensures sections == old(sections) + (if SectionShown(s) then [s] else [])
      ensures s.hidden.Some? ==> s.hiddenCache == Evaluate(s.hidden.value, old(tagToValues))
      ensures rowsByTag == old(rowsByTag) + TagRegistry(s.allRows)
      ensures tagToValues == AssignValues(old(tagToValues), old(EntriesOf(s.allRows)))
      ensures rowObservers == ObserveEntries(Observe(old(rowObservers), SectionObserver(s), s.hidden, None), old(EntriesOf(s.allRows)))
      ensures hasDelegate == old(hasDelegate) && valueChanges == old(valueChanges)
      ensures inlineRowHideOptions == old(inlineRowHideOptions)
      ensures RowsAddedUpTo(s, old(s.rows), |s.allRows|)
    {
      ghost var before := sections;
      DistinctSnoc(allSections, s);
      ghost var es, rows0 := EntriesOf(s.allRows), s.rows;
      ExtendSectionLists([s]);
      assert EntriesOf(s.allRows) == es && s.rows == rows0;
      JoinLastSection(s, before, es);
    }

    /** The second half of `append`: `s`, already last in both section lists, is added to the form. */
    method JoinLastSection(s: Section, ghost before: seq<Section>, ghost es: seq<Entry>)
      requires Valid() && s.Valid() && s !in before && sections == before + [s]
      requires FreshIn(s.allRows, rowsByTag) && es == EntriesOf(s.allRows)
      modifies this, s, s.allRows`section, s.allRows`hiddenCache, s.allRows`disabledCache, s.allRows`isFirstResponder
      ensures Valid() && s.Valid() && s.form == this && s.allRows == old(s.allRows) && s.hidden == old(s.hidden)
      ensures allSections == old(allSections)
      ensures sections == before + (if SectionShown(s) then [s] else [])
      ensures s.hidden.Some? ==> s.hiddenCache == Evaluate(s.hidden.value, old(tagToValues))
      ensures rowsByTag == old(rowsByTag) + TagRegistry(s.allRows)
      ensures tagToValues == AssignValues(old(tagToValues), es)
      ensures rowObservers == ObserveEntries(Observe(old(rowObservers), SectionObserver(s), s.hidden, None), es)
      ensures hasDelegate == old(hasDelegate) && valueChanges == old(valueChanges)
      ensures inlineRowHideOptions == old(inlineRowHideOptions)
      ensures RowsAddedUpTo(s, old(s.rows), |s.allRows|)
    {
      s.WasAddedToForm(this);
      if !SectionShown(s) {
        WithoutAppend(before, s);
      }
    }

    /**
     * `appendContentsOf`: the sections go at the end of both section lists, then each is
     * added to the form in order; those whose hidden condition holds by then drop out of the
     * visible sections.
     */
    method AppendContentsOf(newSections: seq<Section>)
      requires Valid() && Distinct(allSections + newSections) && SectionsValid(newSections)
      requires FreshIn(EveryRow(newSections), rowsByTag)
      modifies this, newSections, EveryRow(newSections)`section, EveryRow(newSections)`hiddenCache,
               EveryRow(newSections)`disabledCache, EveryRow(newSections)`isFirstResponder
      ensures Valid() && allSections == old(allSections) + newSections
      ensures sections == old(sections) + Select(newSections, ShownFlags(newSections))
      ensures forall k :: 0 <= k < |newSections| ==> newSections[k].form == this && newSections[k].allRows == old(newSections[k].allRows)
      ensures rowsByTag == old(rowsByTag) + TagRegistry(old(EveryRow(newSections)))
      ensures hasDelegate == old(hasDelegate) && valueChanges == old(valueChanges)
      ensures inlineRowHideOptions == old(inlineRowHideOptions)
    {
      ghost var before := sections;
      ghost var rows0 := EveryRow(newSections);
      ExtendSectionLists(newSections);
      assert EveryRow(newSections) == rows0 && SectionsValid(newSections);
      assert sections == before + newSections + [];
      AddSectionsToForm(newSections, before, [], []);
      ghost var shownSections := Select(newSections, ShownFlags(newSections));
      assert before + shownSections + [] == before + shownSections;
    }

    /** The sections go at the end of both section lists; nothing else changes. */
    method ExtendSectionLists(newSections: seq<Section>)
      requires Valid() && Distinct(allSections + newSections)
      modifies this`sections, this`allSections
      ensures Valid() && sections == old(sections) + newSections && allSections == old(allSections) + newSections
    {
      DistinctConcat(allSections, newSections);
      AppendKeepsSubsequence(sections, allSections, newSections);
      sections := sections + newSections;
      allSections := allSections + newSections;
    }

    /**
     * The loop `for section in newElements { section.wasAddedToForm(self) }` that ends
     * `appendContentsOf` and `replaceRange`, for sections that sit together among the
     * visible sections, between `prefix` and `suffix`.
     */
    method AddSectionsToForm(newSections: seq<Section>, ghost prefix: seq<Section>, ghost suffix: seq<Section>,
                             ghost detached: seq<Section>)
      requires Valid() && sections == prefix + newSections + suffix
      requires SectionsValid(newSections) && FreshIn(EveryRow(newSections), rowsByTag)
      requires forall s :: s in detached ==> s.form == null
      ensures forall s :: s in detached && s !in newSections ==> s.form == null
      modifies this, newSections, EveryRow(newSections)`section, EveryRow(newSections)`hiddenCache,
               EveryRow(newSections)`disabledCache, EveryRow(newSections)`isFirstResponder
      ensures Valid() && allSections == old(allSections)
      ensures sections == prefix + Select(newSections, ShownFlags(newSections)) + suffix
      ensures forall k :: 0 <= k < |newSections| ==> newSections[k].form == this && newSections[k].allRows == old(newSections[k].allRows)
      ensures rowsByTag == old(rowsByTag) + TagRegistry(old(EveryRow(newSections)))
      ensures hasDelegate == old(hasDelegate) && valueChanges == old(valueChanges)
      ensures inlineRowHideOptions == old(inlineRowHideOptions)
    {
      ghost var bs := RowLists(newSections);
      EveryRowIsFlatten(newSections);
      BlockIsolated(sections, allSections, prefix, newSections, suffix);
      ghost var shown := AddEachSection(newSections, prefix, suffix, bs, EveryRow(newSections));
      ShownFlagsAre(newSections, shown);
    }

    /** The loop of `AddSectionsToForm`, over sections whose rows are `bs`, together `flat`. */
    method AddEachSection(newSections: seq<Section>, ghost prefix: seq<Section>, ghost suffix: seq<Section>,
                          ghost bs: seq<seq<Row>>, ghost flat: seq<Row>) returns (ghost shown: seq<bool>)
      requires Valid() && sections == prefix + newSections + suffix && |bs| == |newSections|
      requires forall j {:trigger Isolated(prefix, newSections, suffix, j)} :: 0 <= j < |newSections| ==> Isolated(prefix, newSections, suffix, j)
      requires forall k :: 0 <= k < |newSections| ==> newSections[k].Valid() && newSections[k].allRows == bs[k]
      requires flat == Flatten(bs) && FreshIn(flat, rowsByTag)
      modifies this, newSections, flat`section, flat`hiddenCache, flat`disabledCache, flat`isFirstResponder
      ensures Valid() && allSections == old(allSections)
      ensures |shown| == |newSections| && sections == prefix + Select(newSections, shown) + suffix
      ensures forall k :: 0 <= k < |newSections| ==> shown[k] == SectionShown(newSections[k])
      ensures forall k :: 0 <= k < |newSections| ==> newSections[k].form == this && newSections[k].allRows == bs[k]
      ensures rowsByTag == old(rowsByTag) + TagRegistry(flat)
      ensures hasDelegate == old(hasDelegate) && valueChanges == old(valueChanges)
      ensures inlineRowHideOptions == old(inlineRowHideOptions)
    {
      ghost var r0 := rowsByTag;
      shown := [];
      SelectStart(prefix, newSections, suffix);
      assert bs[..0] == [] && r0 + map[] == r0;
      for i := 0 to |newSections|
        invariant AddedSections(newSections, prefix, suffix, bs, r0, shown, i)
        invariant FormKept(this)
      {
        AddSectionStep(newSections[i], newSections, i, prefix, suffix, shown, bs, flat, r0);
        shown := shown + [SectionShown(newSections[i])];
      }
      SelectEnd(prefix, newSections, suffix, shown);
      assert bs[..|newSections|] == bs;
    }

    /** The state of the loop of `addEachSection` once the first `i` new sections are added. */
    ghost predicate AddedSections(newSections: seq<Section>, prefix: seq<Section>, suffix: seq<Section>,
                                  bs: seq<seq<Row>>, r0: map<string, Row>, shown: seq<bool>, i: nat)
      reads this, newSections
    {
      && i <= |newSections| == |bs| && |shown| == i && Valid()
      && sections == prefix + Select(newSections[..i], shown) + newSections[i..] + suffix
      && (forall k :: 0 <= k < i ==> shown[k] == SectionShown(newSections[k]) && newSections[k].form == this)
      && (forall k :: 0 <= k < |newSections| ==> newSections[k].Valid() && newSections[k].allRows == bs[k])
      && rowsByTag == r0 + TagRegistry(Flatten(bs[..i]))
    }

    /** Adding the `i`th new section: the loop state moves on by one section. */
    method AddSectionStep(s: Section, newSections: seq<Section>, i: nat, ghost prefix: seq<Section>, ghost suffix: seq<Section>,
                          ghost shown: seq<bool>, ghost bs: seq<seq<Row>>, ghost flat: seq<Row>, ghost r0: map<string, Row>)
      requires i < |newSections| && s == newSections[i]
      requires AddedSections(newSections, prefix, suffix, bs, r0, shown, i)
      requires forall j {:trigger Isolated(prefix, newSections, suffix, j)} :: 0 <= j < |newSections| ==> Isolated(prefix, newSections, suffix, j)
      requires flat == Flatten(bs) && FreshIn(flat, r0)
      modifies this, s, flat`section, flat`hiddenCache, flat`disabledCache, flat`isFirstResponder
      ensures FormKept(this)
      ensures AddedSections(newSections, prefix, suffix, bs, r0, shown + [SectionShown(s)], i + 1)
    {
      RegistryStep(bs, i, r0);
      assert Isolated(prefix, newSections, suffix, i);
      forall k | 0 <= k < |newSections| && k != i ensures newSections[k] != s {
        if k < i {
          assert newSections[k] in newSections[..i];
        } else {
          assert newSections[k] in newSections[i + 1..];
        }
      }
      AddSectionAt(s, newSections, i, prefix, suffix, shown);
      ghost var next := shown + [SectionShown(s)];
      forall k | 0 <= k <= i ensures next[k] == SectionShown(newSections[k]) && newSections[k].form == this {
        if k < i {
          assert newSections[k] != s;
        }
      }
      forall k | 0 <= k < |newSections| && k != i ensures newSections[k].Valid() && newSections[k].allRows == bs[k] {
        assert newSections[k] != s;
      }
    }

    /** One pass of `AddSectionsToForm`: section `i` is added; the visible sections change only at it. */
    method AddSectionAt(s: Section, newSections: seq<Section>, i: nat, ghost prefix: seq<Section>,
                        ghost suffix: seq<Section>, ghost shown: seq<bool>)
      requires i < |newSections| && s == newSections[i] && |shown| == i
      requires Valid() && s.Valid() && sections == prefix + Select(newSections[..i], shown) + newSections[i..] + suffix
      requires Isolated(prefix, newSections, suffix, i)
      requires FreshIn(s.allRows, rowsByTag)
      modifies this, s, s.allRows`section, s.allRows`hiddenCache, s.allRows`disabledCache, s.allRows`isFirstResponder
      ensures Valid() && allSections == old(allSections)
      ensures hasDelegate == old(hasDelegate) && valueChanges == old(valueChanges)
      ensures inlineRowHideOptions == old(inlineRowHideOptions)
      ensures sections == prefix + Select(newSections[..i + 1], shown + [SectionShown(s)]) + newSections[i + 1..] + suffix
      ensures s.form == this && s.Valid() && s.allRows == old(s.allRows)
      ensures rowsByTag == old(rowsByTag) + TagRegistry(s.allRows)
    {
      SelectAt(prefix, newSections, suffix, shown);
      s.WasAddedToForm(this);
      SelectStep(prefix, newSections, suffix, shown, SectionShown(s));
    }

    /**
     * `replaceRange`: the visible sections at positions `start..<end` are removed from the
     * form (their rows leave the registry and the values) and deleted from all sections; the
     * visible range is replaced by `newSections`, which go into all sections right after the
     * visible predecessor of the range, and are then added to the form in order.
     */
    method ReplaceRange(start: nat, end: nat, newSections: seq<Section>)
      requires Valid() && start <= end <= |sections|
      requires forall k :: start <= k < end ==> Attached(this, sections[k])
      requires Distinct(newSections) && forall k :: 0 <= k < |newSections| ==> newSections[k] !in Except(allSections, sections[start..end])
      requires SectionsValid(newSections)
      requires FreshIn(EveryRow(newSections), rowsByTag - TagsOf(EveryRow(sections[start..end])))
      modifies this, sections[start..end]`form, newSections, EveryRow(newSections)`section, EveryRow(newSections)`hiddenCache,
               EveryRow(newSections)`disabledCache, EveryRow(newSections)`isFirstResponder
      ensures Valid()
      ensures allSections == ReplaceAll(old(sections), old(allSections), start, end, newSections)
      ensures sections == old(sections)[..start] + Select(newSections, ShownFlags(newSections)) + old(sections)[end..]
      ensures forall s :: s in old(sections[start..end]) && s !in newSections ==> s.form == null
      ensures forall k :: 0 <= k < |newSections| ==> newSections[k].form == this
      ensures rowsByTag == (old(rowsByTag) - TagsOf(old(EveryRow(sections[start..end])))) + TagRegistry(old(EveryRow(newSections)))
      ensures hasDelegate == old(hasDelegate) && valueChanges == old(valueChanges)
      ensures inlineRowHideOptions == old(inlineRowHideOptions)
    {
      ghost var sections0, all0 := sections, allSections;
      DetachForReplace(start, end, newSections);
      InsertForReplace(start, end, newSections, sections0, all0);
    }

    /**
     * The second part of `replaceRange`: the visible range is replaced by `newSections`, which
     * go into all sections and are then added to the form in order.
     */
    method InsertForReplace(start: nat, end: nat, newSections: seq<Section>, ghost sections0: seq<Section>, ghost all0: seq<Section>)
      requires Distinct(all0) && Subsequence(sections0, all0) && start <= end <= |sections0| && sections == sections0
      requires allSections == Except(all0, sections0[start..end])
      requires Distinct(newSections) && forall k :: 0 <= k < |newSections| ==> newSections[k] !in allSections
      requires SectionsValid(newSections) && FreshIn(EveryRow(newSections), rowsByTag)
      requires forall s :: s in sections0[start..end] ==> s.form == null
      modifies this, newSections, EveryRow(newSections)`section, EveryRow(newSections)`hiddenCache,
               EveryRow(newSections)`disabledCache, EveryRow(newSections)`isFirstResponder
      ensures forall s :: s in sections0[start..end] && s !in newSections ==> s.form == null
      ensures Valid() && allSections == ReplaceAll(sections0, all0, start, end, newSections)
      ensures sections == sections0[..start] + Select(newSections, ShownFlags(newSections)) + sections0[end..]
      ensures forall k :: 0 <= k < |newSections| ==> newSections[k].form == this
      ensures rowsByTag == old(rowsByTag) + TagRegistry(old(EveryRow(newSections)))
      ensures hasDelegate == old(hasDelegate) && valueChanges == old(valueChanges)
      ensures inlineRowHideOptions == old(inlineRowHideOptions)
    {
      SpliceSectionLists(start, end, newSections, all0);
      AddSectionsToForm(newSections, sections0[..start], sections0[end..], sections0[start..end]);
    }

    /**
     * The first part of `replaceRange`: the visible sections at positions `start..<end` are
     * removed from the form; the sections that replace them keep their rows, which are still
     * fresh for the registry.
     */
    method DetachForReplace(start: nat, end: nat, newSections: seq<Section>)
      requires Valid() && start <= end <= |sections|
      requires forall k :: start <= k < end ==> Attached(this, sections[k])
      requires SectionsValid(newSections)
      requires FreshIn(EveryRow(newSections), rowsByTag - TagsOf(EveryRow(sections[start..end])))
      modifies this, sections[start..end]`form
      ensures sections == old(sections) && allSections == Except(old(allSections), sections[start..end])
      ensures forall s :: s in sections[start..end] ==> s.form == null
      ensures SectionsValid(newSections) && EveryRow(newSections) == old(EveryRow(newSections))
      ensures rowsByTag == old(rowsByTag) - TagsOf(old(EveryRow(sections[start..end])))
      ensures FreshIn(EveryRow(newSections), rowsByTag)
      ensures hasDelegate == old(hasDelegate) && valueChanges == old(valueChanges)
      ensures inlineRowHideOptions == old(inlineRowHideOptions)
    {
      ghost var bs, vs := RowLists(newSections), VisibleLists(newSections);
      ghost var rows0, r0 := EveryRow(newSections), rowsByTag - TagsOf(EveryRow(sections[start..end]));
      EveryRowIsFlatten(newSections);
      SectionsValidByLists(newSections, bs, vs);
      DetachSectionsInRange(start, end);
      assert rowsByTag == r0;
      assert RowLists(newSections) == bs && VisibleLists(newSections) == vs;
      EveryRowIsFlatten(newSections);
      SectionsValidByLists(newSections, bs, vs);
    }

    /**
     * The list changes in the middle of `replaceRange`: the visible range is replaced by
     * `newSections`, which go into all sections (from which the replaced ones are gone) right
     * after the visible predecessor of the range; nothing else changes.
     */
    method SpliceSectionLists(start: nat, end: nat, newSections: seq<Section>, ghost all0: seq<Section>)
      requires Distinct(all0) && Subsequence(sections, all0) && start <= end <= |sections|
      requires allSections == Except(all0, sections[start..end])
      requires Distinct(newSections) && forall k :: 0 <= k < |newSections| ==> newSections[k] !in allSections
      modifies this`sections, this`allSections
      ensures Valid() && sections == old(sections)[..start] + newSections + old(sections)[end..]
      ensures allSections == ReplaceAll(old(sections), all0, start, end, newSections)
    {
      ReplaceKeepsSubsequence(sections, all0, start, end, newSections);
      ghost var sections0 := sections;
      sections := sections[..start] + newSections + sections[end..];
      allSections := InsertAllAt(allSections, IndexForInsertionAtIndex(start), newSections);
      assert sections == ReplaceVisible(sections0, start, end, newSections);
    }

    /**
     * The first loop of `replaceRange`: each visible section at positions `start..<end` is
     * removed from the form and deleted from all sections; the visible sections are left as
     * they are.
     */
    method DetachSectionsInRange(start: nat, end: nat)
      requires Valid() && start <= end <= |sections|
      requires forall k :: start <= k < end ==> Attached(this, sections[k])
      modifies this, sections[start..end]`form
      ensures sections == old(sections) && allSections == Except(old(allSections), sections[start..end])
      ensures Distinct(allSections)
      ensures forall s :: s in sections[start..end] ==> s.form == null
      ensures rowsByTag == old(rowsByTag) - TagsOf(old(EveryRow(sections[start..end])))
      ensures tagToValues == old(tagToValues) - TagsOf(old(EveryRow(sections[start..end])))
      ensures hasDelegate == old(hasDelegate) && valueChanges == old(valueChanges)
      ensures inlineRowHideOptions == old(inlineRowHideOptions)
    {
      var gone := sections[start..end];
      ghost var bs := RowLists(gone);
      EveryRowIsFlatten(gone);
      SubsequenceIsDistinct(sections, allSections);
      DistinctSlice(sections, start, end);
      forall k | 0 <= k < |gone| ensures Attached(this, gone[k]) && gone[k].allRows == bs[k] {
        assert gone[k] == sections[start + k];
      }
      DetachEachOf(gone, bs);
      assert sections[start..end] == gone;
      forall s | s in gone ensures s.form == null {
        var k :| 0 <= k < |gone| && gone[k] == s;
      }
    }

    /**
     * The loop of `DetachSectionsInRange`: each of the sections `gone`, whose rows are `bs`,
     * is removed from the form and deleted from all sections.
     */
    method DetachEachOf(gone: seq<Section>, ghost bs: seq<seq<Row>>)
      requires Distinct(gone) && |bs| == |gone|
      requires Distinct(allSections) && forall k :: 0 <= k < |gone| ==> gone[k] in allSections
      requires forall k :: 0 <= k < |gone| ==> Attached(this, gone[k]) && gone[k].allRows == bs[k]
      modifies this, gone`form
      ensures sections == old(sections) && allSections == Except(old(allSections), gone)
      ensures Distinct(allSections)
      ensures forall k :: 0 <= k < |gone| ==> gone[k].form == null
      ensures rowsByTag == old(rowsByTag) - TagsOf(Flatten(bs))
      ensures tagToValues == old(tagToValues) - TagsOf(Flatten(bs))
      ensures hasDelegate == old(hasDelegate) && valueChanges == old(valueChanges)
      ensures inlineRowHideOptions == old(inlineRowHideOptions)
    {
      ghost var all0 := allSections;
      ghost var r0, v0 := rowsByTag, tagToValues;
      ghost var s0, d0, c0, o0 := sections, hasDelegate, valueChanges, inlineRowHideOptions;
      ExceptNothing(all0);
      assert gone[..0] == [] && bs[..0] == [] && r0 - {} == r0 && v0 - {} == v0;
      for j := 0 to |gone|
        invariant sections == s0 && Distinct(allSections)
        invariant allSections == Except(all0, gone[..j])
        invariant forall k :: 0 <= k < j ==> gone[k].form == null
        invariant forall k :: j <= k < |gone| ==> Attached(this, gone[k]) && gone[k].allRows == bs[k]
        invariant rowsByTag == r0 - TagsOf(Flatten(bs[..j]))
        invariant tagToValues == v0 - TagsOf(Flatten(bs[..j]))
        invariant hasDelegate == d0 && valueChanges == c0
        invariant inlineRowHideOptions == o0
      {
        DetachAndDrop(gone[j], gone, j, bs, all0, r0, v0);
      }
      assert gone[..|gone|] == gone && bs[..|gone|] == bs;
    }

    /** One pass of `DetachEachOf`: section `j` of `gone` is removed from the form and deleted from all sections. */
    method DetachAndDrop(s: Section, gone: seq<Section>, j: nat, ghost bs: seq<seq<Row>>, ghost all0: seq<Section>,
                         ghost r0: map<string, Row>, ghost v0: Table)
      requires j < |gone| == |bs| && s == gone[j] && Distinct(gone)
      requires Distinct(all0) && forall k :: 0 <= k < |gone| ==> gone[k] in all0
      requires Distinct(allSections) && allSections == Except(all0, gone[..j])
      requires forall k :: 0 <= k < j ==> gone[k].form == null
      requires forall k :: j <= k < |gone| ==> Attached(this, gone[k]) && gone[k].allRows == bs[k]
      requires rowsByTag == r0 - TagsOf(Flatten(bs[..j])) && tagToValues == v0 - TagsOf(Flatten(bs[..j]))
      modifies this, s`form
      ensures sections == old(sections) && Distinct(allSections) && allSections == Except(all0, gone[..j + 1])
      ensures forall k :: 0 <= k <= j ==> gone[k].form == null
      ensures forall k :: j < k < |gone| ==> Attached(this, gone[k]) && gone[k].allRows == bs[k]
      ensures rowsByTag == r0 - TagsOf(Flatten(bs[..j + 1])) && tagToValues == v0 - TagsOf(Flatten(bs[..j + 1]))
      ensures hasDelegate == old(hasDelegate) && valueChanges == old(valueChanges)
      ensures inlineRowHideOptions == old(inlineRowHideOptions)
    {
      DetachStep(s, gone, j, bs, r0, v0);
      DropSection(s, all0, gone, j);
    }

    /** Section `j` of `gone` is deleted from all sections, from which the sections before it are gone. */
    method DropSection(section: Section, ghost all0: seq<Section>, ghost gone: seq<Section>, j: nat)
      requires j < |gone| && section == gone[j] && Distinct(all0) && Distinct(gone) && section in all0
      requires Distinct(allSections) && allSections == Except(all0, gone[..j])
      modifies this`allSections
      ensures Distinct(allSections) && allSections == Except(all0, gone[..j + 1])
    {
      ExceptStep(all0, gone, j);
      allSections := RemoveAt(allSections, IndexOf(allSections, section));
    }

    /**
     * `section.willBeRemovedFromForm()` for `s`, section `i` of `ss`, one of the sections
     * `removeAll` and `replaceRange` remove: the rows of the sections before it have left the
     * registry and the values, and now its rows leave them too.
     */
    method DetachStep(s: Section, ghost ss: seq<Section>, i: nat, ghost bs: seq<seq<Row>>, ghost r0: map<string, Row>, ghost v0: Table)
      requires i < |ss| == |bs| && s == ss[i] && Distinct(ss)
      requires forall k :: 0 <= k < i ==> ss[k].form == null
      requires forall k :: i <= k < |ss| ==> Attached(this, ss[k]) && ss[k].allRows == bs[k]
      requires rowsByTag == r0 - TagsOf(Flatten(bs[..i])) && tagToValues == v0 - TagsOf(Flatten(bs[..i]))
      modifies this, s`form
      ensures forall k :: 0 <= k <= i ==> ss[k].form == null
      ensures sections == old(sections) && allSections == old(allSections)
      ensures forall k :: i < k < |ss| ==> Attached(this, ss[k]) && ss[k].allRows == bs[k]
      ensures rowsByTag == r0 - TagsOf(Flatten(bs[..i + 1])) && tagToValues == v0 - TagsOf(Flatten(bs[..i + 1]))
      ensures hasDelegate == old(hasDelegate) && valueChanges == old(valueChanges)
      ensures inlineRowHideOptions == old(inlineRowHideOptions)
    {
      ghost var before := Flatten(bs[..i]);
      FlattenSplit(bs, i);
      TagsOfConcat(before, bs[i]);
      ghost var gone := TagsOf(before) + TagsOf(bs[i]);
      assert TagsOf(Flatten(bs[..i + 1])) == gone;
      SubtractTwice(r0, TagsOf(before), TagsOf(bs[i]));
      SubtractTwice(v0, TagsOf(before), TagsOf(bs[i]));
      s.WillBeRemovedFromForm();
      forall k | 0 <= k < |ss| && k != i ensures ss[k] != s {
      }
    }

    /**
     * Every section of `all0` in turn is removed from the form; the rows of all of them leave
     * the registry and the values.
     */
    method DetachEach(ghost all0: seq<Section>, ghost bs: seq<seq<Row>>)
      requires allSections == all0 && Distinct(all0) && |bs| == |all0|
      requires forall k :: 0 <= k < |all0| ==> Attached(this, all0[k]) && all0[k].allRows == bs[k]
      modifies this, all0`form
      ensures allSections == all0 && sections == old(sections)
      ensures forall k :: 0 <= k < |all0| ==> all0[k].form == null
      ensures rowsByTag == old(rowsByTag) - TagsOf(Flatten(bs))
      ensures tagToValues == old(tagToValues) - TagsOf(Flatten(bs))
      ensures hasDelegate == old(hasDelegate) && valueChanges == old(valueChanges)
      ensures inlineRowHideOptions == old(inlineRowHideOptions)
    {
      ghost var r0, v0 := rowsByTag, tagToValues;
      ghost var s0, d0, c0, o0 := sections, hasDelegate, valueChanges, inlineRowHideOptions;
      assert bs[..0] == [] && r0 - {} == r0 && v0 - {} == v0;
      for i := 0 to |allSections|
        invariant allSections == all0 && sections == s0
        invariant forall k :: 0 <= k < i ==> all0[k].form == null
        invariant forall k :: i <= k < |all0| ==> Attached(this, all0[k]) && all0[k].allRows == bs[k]
        invariant rowsByTag == r0 - TagsOf(Flatten(bs[..i]))
        invariant tagToValues == v0 - TagsOf(Flatten(bs[..i]))
        invariant hasDelegate == d0 && valueChanges == c0
        invariant inlineRowHideOptions == o0
      {
        DetachStep(allSections[i], all0, i, bs, r0, v0);
      }
      assert bs[..|all0|] == bs;
    }

    /**
     * `removeAll`: every section, hidden ones included, is removed from the form (its rows
     * leave the registry and the values), then both section lists are emptied.
     */
    method RemoveAll()
      requires Valid() && forall k :: 0 <= k < |allSections| ==> Attached(this, allSections[k])
      modifies this, allSections`form
      ensures sections == [] && allSections == [] && Valid()
      ensures forall k :: 0 <= k < |old(allSections)| ==> old(allSections)[k].form == null
      ensures rowsByTag == old(rowsByTag) - TagsOf(old(EveryRow(allSections)))
      ensures tagToValues == old(tagToValues) - TagsOf(old(EveryRow(allSections)))
      ensures hasDelegate == old(hasDelegate) && valueChanges == old(valueChanges)
      ensures inlineRowHideOptions == old(inlineRowHideOptions)
    {
      ghost var all0 := allSections;
      ghost var bs := RowLists(allSections);
      EveryRowIsFlatten(allSections);
      DetachEach(all0, bs);
      ClearSectionLists();
    }

    /** Both section lists are emptied; nothing else changes. */
    method ClearSectionLists()
      modifies this`sections, this`allSections
      ensures sections == [] && allSections == [] && Valid()
    {
      sections := [];
      allSections := [];
    }

    /** `nextRowForRow`: the visible row after `r`; nil for the last visible row or one not visible. */
    function NextRowForRow(r: Row): (n: Option<Row>)
      reads this, sections
      ensures n.Some? ==> n.value in Rows()
      ensures n.None? <==> r !in Rows() || IndexOf(Rows(), r) == |Rows()| - 1
    {
      NextIn(Rows(), r)
    }

    /** `previousRowForRow`: the visible row before `r`; nil for the first visible row or one not visible. */
    function PreviousRowForRow(r: Row): (p: Option<Row>)
      reads this, sections
      ensures p.Some? ==> p.value in Rows()
      ensures p.None? <==> r !in Rows() || IndexOf(Rows(), r) == 0
    {
      PreviousIn(Rows(), r)
    }

    /**
     * When no row is visible twice, stepping forward then back, or back then forward, returns
     * to the row.
     */
    lemma NextThenPrevious(r: Row)
      requires Distinct(Rows())
      ensures NextRowForRow(r).Some? ==> PreviousRowForRow(NextRowForRow(r).value) == Some(r)
      ensures PreviousRowForRow(r).Some? ==> NextRowForRow(PreviousRowForRow(r).value) == Some(r)
    {
      var rs := Rows();
      if r in rs {
        var i := IndexOf(rs, r);
        if i < |rs| - 1 {
          IndexOfDistinct(rs, i + 1);
        }
        if i > 0 {
          IndexOfDistinct(rs, i - 1);
        }
      }
    }

  }


}
