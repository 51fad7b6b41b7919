/**
 * `SelectableSection`: a section whose selectable rows act as options. The section looks at
 * its visible rows in order; a row is selected when it is selectable and holds a value.
 * Tapping a selectable row applies the section's `SelectionType`: with multiple selection the
 * row toggles between no value and its `selectableValue`; with single selection every other
 * row holding a value is cleared first, then the row takes its `selectableValue` unless
 * deselection is enabled and it was already selected.
 *
 * A row is a `Choice`; rows are identified by their position among the visible rows.
 */
module Selection {
  import opened Wrappers

  /** `SelectionType`. */
  datatype SelectionType = MultipleSelection | SingleSelection(enableDeselection: bool)

  /** The selection type a `SelectableSection` starts with. */
  const DefaultSelectionType: SelectionType := SingleSelection(true)

  /** A visible row of the section: whether it is a selectable row, its value, its `selectableValue`. */
  datatype Choice<V> = Choice(selectable: bool, value: Option<V>, selectableValue: Option<V>)

  /** The filter of `selectedRows`: a selectable row with a value. */
  predicate IsSelected<V>(c: Choice<V>) {
    c.selectable && c.value.Some?
  }

  /** The positions of `ps` go strictly up. */
  predicate Increasing(ps: seq<nat>) {
    forall a, b :: 0 <= a < b < |ps| ==> ps[a] < ps[b]
  }

  /**
   * `selectedRows`: the positions of the selected rows, in order; exactly those positions
   * are listed.
   */
  function SelectedRows<V>(rows: seq<Choice<V>>): (r: seq<nat>)
    ensures Increasing(r)
    ensures forall k: nat :: k in r <==> k < |rows| && IsSelected(rows[k])
    ensures forall j :: 0 <= j < |r| ==> r[j] < |rows|
  {
    if rows == [] then []
    else
      var init := SelectedRows(rows[..|rows| - 1]);
      if IsSelected(rows[|rows| - 1]) then init + [|rows| - 1] else init
  }

  /** `selectedRow`: the first selected row, if any. */
  function SelectedRow<V>(rows: seq<Choice<V>>): (r: Option<nat>)
    ensures r.Some? ==> r.value < |rows| && IsSelected(rows[r.value]) && forall k :: 0 <= k < r.value ==> !IsSelected(rows[k])
    ensures r.None? ==> forall k :: 0 <= k < |rows| ==> !IsSelected(rows[k])
  {
    var selected := SelectedRows(rows);
    if selected == [] then None else Some(selected[0])
  }

  /** The value a tap gives the tapped row. */
  function TappedValue<V>(selection: SelectionType, c: Choice<V>): Option<V> {
    match selection
    case MultipleSelection => if c.value.None? then c.selectableValue else None
    case SingleSelection(enableDeselection) =>
      if !enableDeselection || c.value.None? then c.selectableValue else None
  }

  /** Row `j` after the single-selection clearing pass for a tap on row `i`. */
  function ClearedAt<V>(rows: seq<Choice<V>>, i: nat, j: nat): Choice<V>
    requires j < |rows|
  {
    if rows[j].value.Some? && j != i then rows[j].(value := None) else rows[j]
  }

  /** The rows after a tap on row `i` of the section. */
  function Tapped<V>(rows: seq<Choice<V>>, i: nat, selection: SelectionType): seq<Choice<V>>
    requires i < |rows|
  {
    var cleared := if selection.SingleSelection? then seq(|rows|, j requires 0 <= j < |rows| => ClearedAt(rows, i, j)) else rows;
    cleared[i := cleared[i].(value := TappedValue(selection, rows[i]))]
  }

  /**
   * The selection handler installed on each selectable row: under single selection a pass
   * over the rows clears every other row holding a value, then the tapped row takes its new
   * value. Only the tapped row's value follows the selection type.
   */
  method Tap<V>(rows: array<Choice<V>>, i: nat, selection: SelectionType)
    requires i < rows.Length && rows[i].selectable
    modifies rows
    ensures rows[..] == Tapped(old(rows[..]), i, selection)
  {
    var current := rows[i];
    if selection.SingleSelection? {
      for j := 0 to rows.Length
        invariant forall k :: 0 <= k < j ==> rows[k] == ClearedAt(old(rows[..]), i, k)
        invariant forall k :: j <= k < rows.Length ==> rows[k] == old(rows[k])
      {
        if rows[j].value.Some? && j != i {
          rows[j] := rows[j].(value := None);
        }
      }
    }
    rows[i] := rows[i].(value := TappedValue(selection, current));
  }

  /** Multiple selection: the tap toggles the tapped row and leaves every other row as it was. */
  lemma MultipleTapToggles<V>(rows: seq<Choice<V>>, i: nat)
    requires i < |rows|
    ensures var r := Tapped(rows, i, MultipleSelection);
      && |r| == |rows|
      && (forall j :: 0 <= j < |rows| && j != i ==> r[j] == rows[j])
      && r[i].selectable == rows[i].selectable && r[i].selectableValue == rows[i].selectableValue
      && (rows[i].value.None? ==> r[i].value == rows[i].selectableValue)
      && (rows[i].value.Some? ==> r[i].value.None?)
  {
  }

  /** Multiple selection: tapping a row twice gives the section back, from an unselected or selected row. */
  lemma MultipleTapTwice<V>(rows: seq<Choice<V>>, i: nat)
    requires i < |rows| && rows[i].selectableValue.Some?
    requires rows[i].value.None? || rows[i].value == rows[i].selectableValue
    ensures Tapped(Tapped(rows, i, MultipleSelection), i, MultipleSelection) == rows
  {
    var once := Tapped(rows, i, MultipleSelection);
    var twice := Tapped(once, i, MultipleSelection);
    assert |twice| == |rows|;
    forall j | 0 <= j < |rows| ensures twice[j] == rows[j] {
    }
  }

  /** Only the rows at `keep` (if any) may hold a value. */
  lemma SelectedWithin<V>(rows: seq<Choice<V>>, keep: nat)
    requires forall j :: 0 <= j < |rows| && j != keep ==> rows[j].value.None?
    ensures SelectedRows(rows) == if keep < |rows| && IsSelected(rows[keep]) then [keep] else []
  {
    var r := SelectedRows(rows);
    if keep < |rows| && IsSelected(rows[keep]) {
      assert keep in r;
      assert r == [r[0]];
    }
  }

  /**
   * Single selection: after a tap no row other than the tapped one holds a value, so at most
   * one row is selected, and the selected row, if any, is the tapped one.
   */
  lemma SingleTapSelectsAtMostOne<V>(rows: seq<Choice<V>>, i: nat, enableDeselection: bool)
    requires i < |rows| && rows[i].selectable
    ensures var r := Tapped(rows, i, SingleSelection(enableDeselection));
      && |r| == |rows|
      && (forall j :: 0 <= j < |r| && j != i ==> r[j].value.None? && r[j].selectable == rows[j].selectable)
      && |SelectedRows(r)| <= 1
      && SelectedRow(r) == (if r[i].value.Some? then Some(i) else None)
  {
    var r := Tapped(rows, i, SingleSelection(enableDeselection));
    SelectedWithin(r, i);
  }

  /** Single selection with deselection disabled: the tapped row always ends up with its `selectableValue`. */
  lemma SingleWithoutDeselectionKeeps<V>(rows: seq<Choice<V>>, i: nat)
    requires i < |rows| && rows[i].selectable && rows[i].selectableValue.Some?
    ensures var r := Tapped(rows, i, SingleSelection(false));
      r[i].value == rows[i].selectableValue && SelectedRows(r) == [i]
  {
    SelectedWithin(Tapped(rows, i, SingleSelection(false)), i);
  }

  /**
   * Single selection with deselection enabled: a tap on the selected row leaves nothing
   * selected; a tap on an unselected row selects it alone.
   */
  lemma SingleWithDeselectionToggles<V>(rows: seq<Choice<V>>, i: nat)
    requires i < |rows| && rows[i].selectable
    ensures var r := Tapped(rows, i, SingleSelection(true));
      && (rows[i].value.Some? ==> SelectedRows(r) == [])
      && (rows[i].value.None? && rows[i].selectableValue.Some? ==> SelectedRows(r) == [i])
  {
    SelectedWithin(Tapped(rows, i, SingleSelection(true)), i);
  }

  /** The default selection type is single selection with deselection: tapping the selected row clears it. */
  lemma DefaultDeselects<V>(rows: seq<Choice<V>>, i: nat)
    requires i < |rows| && IsSelected(rows[i])
    ensures SelectedRows(Tapped(rows, i, DefaultSelectionType)) == []
  {
    SingleWithDeselectionToggles(rows, i);
  }
}
