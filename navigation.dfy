/**
 * Keyboard navigation of the form view controller: which row the previous/next buttons of
 * the input accessory view move to (`nextRowForRow(_:withDirection:)`), whether the
 * accessory view is shown at all, and the return key a text input gets when editing
 * begins. The navigation options and the keyboard return configurations are parameters,
 * as they are properties of the controller, of the form and of the row.
 */
module Navigation {
  import opened Wrappers
  import opened Sequences
  import opened Options
  import opened Forms

  /** `Direction`: `.down` moves to the next row, `.up` to the previous one. */
  datatype Direction = Up | Down

  /** `navigationOptions ?? Form.defaultNavigationOptions`. */
  function OptionsInEffect(navigationOptions: Option<Bits>): (o: Bits)
    ensures navigationOptions.None? ==> Contains(o, NavigationEnabled) && Contains(o, SkipCanNotBecomeFirstResponderRow)
    ensures navigationOptions.Some? ==> o == navigationOptions.value
  {
    if navigationOptions.Some? then navigationOptions.value else DefaultNavigationOptions
  }

  /** A row navigation stops at: enabled, and its cell can become first responder. */
  predicate Lands(r: Row)
    reads r
  {
    !r.disabledCache && r.canBecomeFirstResponder
  }

  /**
   * A row navigation moves on past: a disabled row unless `StopDisabledRow` is set, or an
   * enabled row that cannot become first responder when `SkipCanNotBecomeFirstResponderRow`
   * is set.
   */
  predicate Passes(r: Row, options: Bits)
    reads r
  {
    if r.disabledCache then !Contains(options, StopDisabledRow)
    else !r.canBecomeFirstResponder && Contains(options, SkipCanNotBecomeFirstResponderRow)
  }

  /** Every row strictly between positions `i` and `j` of `rows` can be moved past. */
  predicate AllPass(rows: seq<Row>, i: int, j: int, options: Bits)
    reads rows
  {
    forall k :: i < k < j && 0 <= k < |rows| ==> Passes(rows[k], options)
  }

  /** How far navigation from `r` can still go in `direction` through `rows`. */
  function Remaining(rows: seq<Row>, r: Row, direction: Direction): nat
  {
    if r !in rows then 0
    else if direction == Down then |rows| - IndexOf(rows, r)
    else IndexOf(rows, r) + 1
  }

  /**
   * The navigation rule over the visible rows `rows`: nil unless navigation is enabled;
   * otherwise the neighbouring row in `direction`, when there is one, is taken if it lands,
   * ends navigation if it stops it, and is moved past otherwise.
   */
  function Navigate(rows: seq<Row>, r: Row, direction: Direction, options: Bits): (n: Option<Row>)
    requires Distinct(rows)
    reads rows
    ensures !Contains(options, NavigationEnabled) ==> n.None?
    ensures n.Some? ==> n.value in rows && Lands(n.value)
    decreases Remaining(rows, r, direction)
  {
    if !Contains(options, NavigationEnabled) then None
    else
      var next := if direction == Down then NextIn(rows, r) else PreviousIn(rows, r);
      if next.None? then None
      else
        var nextRow := next.value;
        if nextRow.disabledCache && Contains(options, StopDisabledRow) then None
        else if !nextRow.canBecomeFirstResponder && !nextRow.disabledCache &&
                !Contains(options, SkipCanNotBecomeFirstResponderRow) then None
        else if !nextRow.disabledCache && nextRow.canBecomeFirstResponder then Some(nextRow)
        else
          var i := IndexOf(rows, r);
          if direction == Down then
            IndexOfDistinct(rows, i + 1);
            Navigate(rows, nextRow, direction, options)
          else
            IndexOfDistinct(rows, i - 1);
            Navigate(rows, nextRow, direction, options)
  }

  /**
   * `nextRowForRow(_:withDirection:)`: the navigation rule over the form's visible rows,
   * stepping with the form's `nextRowForRow`/`previousRowForRow`. No row is visible twice,
   * as a row belongs to one section once.
   */
  function NextRowForRow(f: Form, r: Row, direction: Direction, options: Bits): (n: Option<Row>)
    requires Distinct(f.Rows())
    reads f, f.sections, f.Rows()
    ensures !Contains(options, NavigationEnabled) ==> n.None?
    ensures n.Some? ==> n.value in f.Rows() && Lands(n.value)
  {
    Navigate(f.Rows(), r, direction, options)
  }

  /**
   * Moving down from the visible row at `i` gives the first row below it that lands, as
   * long as every row before that one can be moved past; with no such row it gives nil.
   */
  lemma {:induction false} NavigateDown(rows: seq<Row>, i: nat, options: Bits)
    requires Distinct(rows) && Contains(options, NavigationEnabled) && i < |rows|
    ensures var n := Navigate(rows, rows[i], Down, options);
      && (n.Some? ==> var j := IndexOf(rows, n.value); i < j && Lands(rows[j]) && AllPass(rows, i, j, options))
      && (n.None? ==> forall j :: i < j < |rows| && Lands(rows[j]) ==> !AllPass(rows, i, j, options))
    decreases |rows| - i
  {
    IndexOfDistinct(rows, i);
    var n := Navigate(rows, rows[i], Down, options);
    if i < |rows| - 1 {
      var nextRow := rows[i + 1];
      IndexOfDistinct(rows, i + 1);
      assert NextIn(rows, rows[i]) == Some(nextRow);
      if !Lands(nextRow) && Passes(nextRow, options) {
        NavigateDown(rows, i + 1, options);
        assert n == Navigate(rows, nextRow, Down, options);
        if n.Some? {
          AllPassBelow(rows, i, IndexOf(rows, n.value), options);
        } else {
          forall j | i < j < |rows| && Lands(rows[j]) ensures !AllPass(rows, i, j, options) {
            AllPassNarrow(rows, i, j, options);
          }
        }
      } else if Lands(nextRow) {
        assert n == Some(nextRow);
      } else {
        assert n == None;
        forall j | i < j < |rows| && Lands(rows[j]) ensures !AllPass(rows, i, j, options) {
          assert i + 1 < j && !Passes(rows[i + 1], options);
        }
      }
    } else {
      assert NextIn(rows, rows[i]) == None;
    }
  }

  /** `NavigateDown` for the form's visible rows. */
  lemma NextRowDown(f: Form, r: Row, options: Bits)
    requires Distinct(f.Rows()) && Contains(options, NavigationEnabled) && r in f.Rows()
    ensures var rows, i, n := f.Rows(), IndexOf(f.Rows(), r), NextRowForRow(f, r, Down, options);
      && (n.Some? ==> var j := IndexOf(rows, n.value); i < j && Lands(rows[j]) && AllPass(rows, i, j, options))
      && (n.None? ==> forall j :: i < j < |rows| && Lands(rows[j]) ==> !AllPass(rows, i, j, options))
  {
    NavigateDown(f.Rows(), IndexOf(f.Rows(), r), options);
  }

  /** Moving past the row just below `i` and then every row up to `j` is moving past every row between `i` and `j`. */
  lemma AllPassBelow(rows: seq<Row>, i: nat, j: nat, options: Bits)
    requires i + 1 < |rows| && i + 1 < j && Passes(rows[i + 1], options) && AllPass(rows, i + 1, j, options)
    ensures AllPass(rows, i, j, options)
  {
  }

  /** Moving past the row just above `j` and then every row down to `i` is moving past every row between `i` and `j`. */
  lemma AllPassAbove(rows: seq<Row>, i: nat, j: nat, options: Bits)
    requires 0 < j <= |rows| && i + 1 < j && Passes(rows[j - 1], options) && AllPass(rows, i, j - 1, options)
    ensures AllPass(rows, i, j, options)
  {
  }

  /** Moving past every row between `i` and `j` is moving past every row of a narrower range. */
  lemma AllPassNarrow(rows: seq<Row>, i: int, j: int, options: Bits)
    ensures AllPass(rows, i, j, options) ==> AllPass(rows, i + 1, j, options) && AllPass(rows, i, j - 1, options)
  {
  }

  /**
   * Moving up from the visible row at `i` gives the first row above it that lands, as long
   * as every row after that one can be moved past; with no such row it gives nil.
   */
  lemma {:induction false} NavigateUp(rows: seq<Row>, i: nat, options: Bits)
    requires Distinct(rows) && Contains(options, NavigationEnabled) && i < |rows|
    ensures var n := Navigate(rows, rows[i], Up, options);
      && (n.Some? ==> var j := IndexOf(rows, n.value); j < i && Lands(rows[j]) && AllPass(rows, j, i, options))
      && (n.None? ==> forall j :: 0 <= j < i && Lands(rows[j]) ==> !AllPass(rows, j, i, options))
  {
    IndexOfDistinct(rows, i);
    var n := Navigate(rows, rows[i], Up, options);
    if i > 0 {
      var nextRow := rows[i - 1];
      IndexOfDistinct(rows, i - 1);
      assert PreviousIn(rows, rows[i]) == Some(nextRow);
      if !Lands(nextRow) && Passes(nextRow, options) {
        NavigateUp(rows, i - 1, options);
        assert n == Navigate(rows, nextRow, Up, options);
        if n.Some? {
          AllPassAbove(rows, IndexOf(rows, n.value), i, options);
        } else {
          forall j | 0 <= j < i && Lands(rows[j]) ensures !AllPass(rows, j, i, options) {
            AllPassNarrow(rows, j, i, options);
          }
        }
      } else if Lands(nextRow) {
        assert n == Some(nextRow);
      } else {
        assert n == None;
        forall j | 0 <= j < i && Lands(rows[j]) ensures !AllPass(rows, j, i, options) {
          assert j < i - 1 && !Passes(rows[i - 1], options);
        }
      }
    } else {
      assert PreviousIn(rows, rows[i]) == None;
    }
  }

  /** `NavigateUp` for the form's visible rows. */
  lemma NextRowUp(f: Form, r: Row, options: Bits)
    requires Distinct(f.Rows()) && Contains(options, NavigationEnabled) && r in f.Rows()
    ensures var rows, i, n := f.Rows(), IndexOf(f.Rows(), r), NextRowForRow(f, r, Up, options);
      && (n.Some? ==> var j := IndexOf(rows, n.value); j < i && Lands(rows[j]) && AllPass(rows, j, i, options))
      && (n.None? ==> forall j :: 0 <= j < i && Lands(rows[j]) ==> !AllPass(rows, j, i, options))
  {
    NavigateUp(f.Rows(), IndexOf(f.Rows(), r), options);
  }

  /** A row that is not visible has nowhere to go, whatever the options. */
  lemma NotVisibleGoesNowhere(f: Form, r: Row, direction: Direction, options: Bits)
    requires Distinct(f.Rows()) && r !in f.Rows()
    ensures NextRowForRow(f, r, direction, options).None?
  {
  }

  /** The state of the navigation accessory view: whether its previous and next buttons are enabled. */
  datatype Accessory = Accessory(previousEnabled: bool, nextEnabled: bool)

  /**
   * `inputAccessoryViewForRow`: nil unless navigation is enabled and the row's cell can
   * become first responder; otherwise the accessory view, each button enabled exactly when
   * navigation in its direction finds a row.
   */
  function InputAccessoryViewForRow(f: Form, r: Row, options: Bits): (a: Option<Accessory>)
    requires Distinct(f.Rows())
    reads f, f.sections, f.Rows(), r
    ensures a.None? <==> !Contains(options, NavigationEnabled) || !r.canBecomeFirstResponder
    ensures a.Some? ==> (a.value.previousEnabled <==> NextRowForRow(f, r, Up, options).Some?)
    ensures a.Some? ==> (a.value.nextEnabled <==> NextRowForRow(f, r, Down, options).Some?)
  {
    if !Contains(options, NavigationEnabled) then None
    else if !r.canBecomeFirstResponder then None
    else Some(Accessory(NextRowForRow(f, r, Up, options).Some?, NextRowForRow(f, r, Down, options).Some?))
  }

  /**
   * With the accessory view shown for a visible row, its next button is enabled exactly
   * when some row below lands and every row before it can be moved past.
   */
  lemma AccessoryNextButton(f: Form, r: Row, options: Bits, j: nat)
    requires Distinct(f.Rows()) && r in f.Rows() && InputAccessoryViewForRow(f, r, options).Some?
    requires IndexOf(f.Rows(), r) < j < |f.Rows()| && Lands(f.Rows()[j])
    requires AllPass(f.Rows(), IndexOf(f.Rows(), r), j, options)
    ensures InputAccessoryViewForRow(f, r, options).value.nextEnabled
  {
    NextRowDown(f, r, options);
  }

  /** `UIReturnKeyType`. */
  datatype ReturnKeyType =
    | Default | Go | Google | Join | Next | Route | Search | Send | Yahoo | Done | EmergencyCall | Continue

  /** `KeyboardReturnTypeConfiguration`: the key used when a next row exists, and the one used otherwise. */
  datatype KeyboardReturnTypeConfiguration = KeyboardReturnTypeConfiguration(nextKeyboardType: ReturnKeyType, defaultKeyboardType: ReturnKeyType)

  /** `Form.defaultKeyboardReturnType`, built by `KeyboardReturnTypeConfiguration()`. */
  const DefaultKeyboardReturnType := KeyboardReturnTypeConfiguration(Next, Default)

  /** The configuration in effect: the row's, else the form's, else the default. */
  function ConfigurationInEffect(rowConfig: Option<KeyboardReturnTypeConfiguration>,
                                 formConfig: Option<KeyboardReturnTypeConfiguration>): (c: KeyboardReturnTypeConfiguration)
    ensures rowConfig.Some? ==> c == rowConfig.value
    ensures rowConfig.None? && formConfig.Some? ==> c == formConfig.value
    ensures rowConfig.None? && formConfig.None? ==> c == DefaultKeyboardReturnType
  {
    if rowConfig.Some? then rowConfig.value
    else if formConfig.Some? then formConfig.value
    else DefaultKeyboardReturnType
  }

  /**
   * The return key chosen in `textInputDidBeginEditing`: the next-row key of the
   * configuration in effect when a next row exists, its default key otherwise. Each key is
   * looked up on its own, the row's configuration first, then the form's, then the default.
   */
  function ReturnKeyFor(hasNextRow: bool, rowConfig: Option<KeyboardReturnTypeConfiguration>,
                        formConfig: Option<KeyboardReturnTypeConfiguration>): (k: ReturnKeyType)
    ensures hasNextRow ==> k == ConfigurationInEffect(rowConfig, formConfig).nextKeyboardType
    ensures !hasNextRow ==> k == ConfigurationInEffect(rowConfig, formConfig).defaultKeyboardType
  {
    if hasNextRow then
      (if rowConfig.Some? then rowConfig.value.nextKeyboardType
       else if formConfig.Some? then formConfig.value.nextKeyboardType
       else DefaultKeyboardReturnType.nextKeyboardType)
    else
      (if rowConfig.Some? then rowConfig.value.defaultKeyboardType
       else if formConfig.Some? then formConfig.value.defaultKeyboardType
       else DefaultKeyboardReturnType.defaultKeyboardType)
  }

  /** With nothing configured, the key is Next exactly when a next row exists, else Default. */
  lemma ReturnKeyUnconfigured(hasNextRow: bool)
    ensures ReturnKeyFor(hasNextRow, None, None) == (if hasNextRow then Next else Default)
  {
  }

  /**
   * `textInputDidBeginEditing`: for a row that handles the return key (`handler` holds its
   * own configuration), the text input's return key becomes the one `ReturnKeyFor` picks,
   * with "a next row exists" meaning that navigating down finds a row; any other row keeps
   * the key it had.
   */
  function ReturnKeyOnBeginEditing(f: Form, r: Row, options: Bits,
                                   handler: Option<Option<KeyboardReturnTypeConfiguration>>,
                                   formConfig: Option<KeyboardReturnTypeConfiguration>,
                                   current: ReturnKeyType): (k: ReturnKeyType)
    requires Distinct(f.Rows())
    reads f, f.sections, f.Rows()
    ensures handler.None? ==> k == current
    ensures handler.Some? && !Contains(options, NavigationEnabled) ==>
      k == ConfigurationInEffect(handler.value, formConfig).defaultKeyboardType
    ensures handler.Some? && NextRowForRow(f, r, Down, options).Some? ==>
      k == ConfigurationInEffect(handler.value, formConfig).nextKeyboardType
  {
    if handler.None? then current
    else ReturnKeyFor(NextRowForRow(f, r, Down, options).Some?, handler.value, formConfig)
  }
}
