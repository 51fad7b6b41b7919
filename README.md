# Eureka form model, with Eureka's and PhoneNumberKit's phone formatting

This project models the core of Eureka, a Swift library that builds table-view forms out of
sections and rows, together with the pure parts of the vendored PhoneNumberKit library, and
proves properties of that model in Dafny.

What is modelled:

- **Forms, sections and rows** (`Forms`, `Visibility`, `Observers`, `RowValues`, `InlineRows`).
  - `Form`, `Section` and `Row` are classes whose fields the methods update in place.
  - A form keeps all its sections and the visible subsequence of them. A section does the same for its rows.
  - Hiding a row or section removes it from the visible list only. Showing it puts it back right after its nearest visible predecessor in the full list.
  - The form keeps a tag registry (`rowsByTag`, `tagToValues`) and an observer table (`rowObservers`: tag, then condition type, then observers).
  - Adding rows or sections registers their tags and observers. Removing them unregisters their tags. The source's observer removal edits a copy of the list and so, as written, leaves every observer registered; the model removes the observers, the evidently intended behaviour, and the rows that rely on it say "(corrected; see Findings)".
  - Assigning a changed value to a tagged row writes the value table. It then re-evaluates every hidden observer of that tag, then every disabled observer.
  - Inline rows expand into the row below them and collapse out of it.
- **`SelectableSection`** (`Selection`): the selected rows and the effect of a tap under single and multiple selection.
- **Keyboard navigation** (`Navigation`, `Options`): the next or previous row the accessory buttons move to, whether the accessory view is shown, and which return key a text input gets.
- **The `+++`, `<<<` and `+=` operators** (`Operators`) and the `SectionBuilder` result builder (`ResultBuilders`).
- **`PresentationMode`** (`Presentation`), and the pieces of the older single-file `Source/Core.swift` that differ from the split files (`LegacyCore`).
- **Validation rules and validators** (`Validation`).
- **The cascading double and triple pickers** (`Pickers`) and `ImageRow`'s choice of image sources (`ImageRows`).
- **Eureka's `PhoneFormatter`** (`PhoneFormatting`).
- **PhoneNumberKit** (`PhoneParser`, `PartialFormatting`, `NumberFormatter`, `PhoneMetadata`, `PhoneKit`, `PhoneRegex`, `PhoneTextField`, `PhoneConstants`):
  - the parser's prefix and country-code extraction;
  - the partial (as-you-type) formatter;
  - the E.164, international and national renderings;
  - the metadata indexes and the region lookups;
  - the regular-expression helpers with their pattern cache;
  - the cursor-restoring edit of its text field.

How the source is represented:

- Row identity (`==` on `BaseRow`, and `===`) is Dafny reference equality.
- Condition bodies, `NSPredicate` evaluation and regular-expression engines are foreign code. They are parameters of the model: a condition carries its evaluation as a function of the value table, and an `Engine` value gives a regex engine's answers.
- Row values are a `Value` datatype with one case per value type. The `as? T` cast is `Conditions.Cast`.
- Integers are unbounded. Swift's `UInt64` parsing limit is an explicit bound (`Decimal.UInt64Limit`).
- `Source/Core/*.swift`, the older `Source/Core.swift` and the later copy under `Pods/Eureka` are snapshots of the same library. Where they agree, one Dafny member models all of them, and its row cites the copy it follows.

## Model

| member | source | states |
|---|---|---|
| Forms.FirstWithTag | Source/Core/Section.swift:100-103 | the element found is the first whose tag is the one sought, in a list of rows (`indexOf`) or of sections (`filter { $0.tag == tag }.first`, Form.swift:82-84), hidden ones included; none is found exactly when no element carries the tag |
| Forms.VisibleRows | Source/Core/Form.swift:123 | the form's `rows` hold exactly the visible rows of the visible sections |
| Forms.EveryRowSpec | Source/Core/Form.swift:126 | `allRows` holds exactly the rows of every section, hidden rows and hidden sections included |
| Forms.AssignValuesSpec | Source/Core/Form.swift:96-100 | the `reduce` over tagged rows has a key for every tag written, the value of the last row with that tag wins, and keys it is not given keep their old value |
| Forms.TaggedValuesSpec | Source/Core/Form.swift:95-107 | the values table of a row list has an entry for exactly the tags of its rows, each holding the value of the last row with that tag |
| Forms.TagRegistrySpec | Source/Core/BaseRow.swift:145-147 | registering a row list puts exactly its tags into `rowsByTag`, each pointing to a row of the list carrying that tag |
| Forms.Row.constructor | Source/Core/BaseRow.swift:64-66 | a new row has the given tag, no value, no conditions, is neither hidden nor disabled and belongs to no section |
| Forms.Row.IndexPath | Source/Core/BaseRow.swift:93-96 | there is an index path exactly when the row is visible in a visible section of a form, and it names that section's position in the form and the row's position among the section's visible rows |
| Forms.Row.GetCell | Source/Core/Row.swift:76-85 | the cell is created and set up once, on first access; later accesses return the same cell without setting it up again |
| Forms.Row.EvaluateHidden | Source/Core/BaseRow.swift:113-127 | without a condition or a form nothing changes; otherwise `hiddenCache` becomes the condition's value on the form's values, and the row leaves the visible rows (resigning first responder) when hidden or is put back in place when shown |
| Forms.Row.EvaluateDisabled | Source/Core/BaseRow.swift:98-141 | without a condition or a form nothing changes; otherwise `disabledCache` becomes the condition's value, and the row stops being first responder exactly when it turns from enabled to disabled |
| Forms.Row.WasAddedToFormInSection | Source/Core/BaseRow.swift:143-153 | the row joins the section; inside a form its tag is registered with its value, it observes the tags its conditions depend on, and its hidden and disabled state are evaluated on the form's values; outside a form nothing else changes |
| Forms.Row.WillBeRemovedFromForm | Source/Core/BaseRow.swift:180-187 | the row's tag leaves `rowsByTag` and `tagToValues` and the row stops observing the tags its conditions depend on; nothing else in the form changes (corrected; see Findings) |
| Forms.Row.AddToHiddenRowObservers | Source/Core/BaseRow.swift:155-163 | the row is added as a hidden-observer of every tag its hidden condition depends on; nothing changes without a hidden condition |
| Forms.Row.AddToDisabledRowObservers | Source/Core/BaseRow.swift:165-173 | the row is added as a disabled-observer of every tag its disabled condition depends on |
| Forms.Row.RemoveFromHiddenRowObservers | Source/Core/BaseRow.swift:190-198 | the row is removed as a hidden-observer of every tag its hidden condition depends on (corrected; see Findings) |
| Forms.Row.RemoveFromDisabledRowObservers | Source/Core/BaseRow.swift:200-208 | the row is removed as a disabled-observer of every tag its disabled condition depends on (corrected; see Findings) |
| Forms.Row.SetHidden | Source/Core/BaseRow.swift:50-53 | setting `hidden` first unregisters the row from the old condition's tags, then registers it for the new condition's tags (corrected; see Findings) |
| Forms.Row.SetDisabled | Source/Core/BaseRow.swift:44-47 | setting `disabled` first unregisters the row from the old condition's tags, then registers it for the new condition's tags (corrected; see Findings) |
| Forms.Section.constructor | Source/Core/Section.swift:134 | a new section has the given tag, no rows, no form and no hidden condition |
| Forms.Section.EvaluateHidden | Source/Core/Section.swift:260-275 | without a condition or a form nothing changes; otherwise `hiddenCache` becomes the condition's value and the section leaves the form's visible sections when hidden or is put back in place when shown |
| Forms.Section.AddToRowObservers | Source/Core/Section.swift:292-300 | the section becomes a hidden-observer of every tag its condition depends on |
| Forms.Section.RemoveFromRowObservers | Source/Core/Section.swift:316-324 | the section stops observing every tag its condition depends on (corrected; see Findings) |
| Forms.Section.SetHidden | Source/Core/Section.swift:126-129 | setting `hidden` unregisters the section from the old condition's tags and registers it for the new one's (corrected; see Findings) |
| Forms.Section.WasAddedToForm | Source/Core/Section.swift:280-287 | the section joins the form, observes its condition's tags and is shown or hidden by its condition; then every row, in order, is registered with its tag and value, observes its conditions' tags and is evaluated, the registry growing by exactly the rows' tags |
| Forms.Section.WillBeRemovedFromForm | Source/Core/Section.swift:305-311 | every row's tag leaves the registry and the value table, every row and then the section stop observing their conditions' tags, and the section leaves the form (corrected; see Findings) |
| Forms.Section.RemoveAll | Source/Core/Section.swift:233-240 | the section ends with no rows; every row first leaves the form's registry, value table and observer table (corrected; see Findings) |
| Forms.Section.Append | Source/Core/Section.swift:202-206 | the row becomes the last of all rows, and the last visible row exactly when its hidden condition lets it stay; it is registered and evaluated on the form's values |
| Forms.Section.AppendContentsOf | Source/Core/Section.swift:208-214 | the rows are appended in order; those whose condition lets them stay follow the visible rows; each is registered and evaluated on the values table as it stood once the rows before it were added |
| Forms.Section.IndexForInsertionAtIndex | Source/Core/Section.swift:242-250 | 0 for index 0; otherwise one past the position among all rows of the visible row before the index, or the end when that row is not found |
| Forms.Section.ReplaceRange | Source/Core/Section.swift:218-231 | the visible rows in the range are replaced by the new rows that stay visible; in the list of all rows the removed rows are dropped and the new rows go in after the visible row before the range; the removed rows' tags and observers leave the form and the new rows' come in (corrected; see Findings) |
| Forms.Section.RowByTag | Source/Core/Section.swift:100-103 | a row found carries the tag and is one of all the section's rows; none is found exactly when no row carries it. The `as? Row` cast to the caller's row type is not modelled: a row of another type is returned where the source gives nil |
| Forms.Section.HideRow | Source/Core/Section.swift:326-330 | the row leaves the visible rows and stops being first responder; the list of all rows is unchanged |
| Forms.Section.ShowRow | Source/Core/Section.swift:332-342 | the row is put back among the visible rows after its nearest visible predecessor in the list of all rows, or first; nothing changes when it is already visible |
| Forms.NextIn | Source/Core/Form.swift:284-289 | the row after the given one in the list, or none exactly when the row is absent or last |
| Forms.PreviousIn | Source/Core/Form.swift:291-296 | the row before the given one in the list, or none exactly when the row is absent or first |
| Forms.Form.constructor | Source/Core/Form.swift:47 | a new form has no sections, no registered tags, no values, no observers and no delegate |
| Forms.Form.RowByTag | Source/Core/Form.swift:75-77 | a row is found exactly when the tag is registered, and it is the registered row |
| Forms.Form.SectionByTag | Source/Core/Form.swift:82-84 | the first of all sections carrying the tag, hidden ones included, or none exactly when none carries it |
| Forms.Form.RowsAreRows | Source/Core/Form.swift:123-126 | every visible row of the form is one of its rows |
| Forms.Form.Values | Source/Core/Form.swift:93-108 | the values table holds exactly the tags of the visible rows, or of all rows when hidden ones are included, each with the value of the last row carrying it |
| Forms.Form.HideSection | Source/Core/Form.swift:298-300 | the section leaves the visible sections |
| Forms.Form.ShowSection | Source/Core/Form.swift:302-312 | the section is put back among the visible sections after its nearest visible predecessor, or first; nothing changes when it is already visible |
| Forms.Form.AddRowObservers | Source/Core/Form.swift:261-275 | the observer table becomes the table with the observer added, once, under every given tag and condition type |
| Forms.Form.RemoveRowObserversAsWritten | Source/Core/Form.swift:277-282 | as written: the local copy is edited and dropped, so the table it leaves behind is the old one |
| Forms.Form.RemoveRowObservers | Source/Core/Form.swift:277-282 | corrected: the observer is removed under every given tag and condition type |
| Forms.Form.IndexForInsertionAtIndex | Source/Core/Form.swift:203-211 | 0 for index 0; otherwise one past the position among all sections of the visible section before the index, or the end when it is not found |
| Forms.Form.Append | Source/Core/Form.swift:163-167 | the section becomes the last of all sections, the last visible one exactly when its condition lets it show, and its rows' tags, values and observers are added in order |
| Forms.Form.AppendContentsOf | Source/Core/Form.swift:169-175 | the sections are appended in order, the visible sections grow by those that show, and every row of them is registered |
| Forms.Form.ReplaceRange | Source/Core/Form.swift:179-192 | the visible sections in the range are replaced by the new sections that show; the removed sections leave the form and their rows' tags leave the registry; the new sections join and their rows' tags come in (corrected; see Findings) |
| Forms.Form.RemoveAll | Source/Core/Form.swift:194-201 | the form ends with no sections; every section left the form and its rows' tags left the registry and the value table (corrected; see Findings) |
| Forms.Form.NextRowForRow | Source/Core/Form.swift:284-289 | the next visible row of the form, or none exactly when the row is not visible or is the last |
| Forms.Form.PreviousRowForRow | Source/Core/Form.swift:291-296 | the previous visible row of the form, or none exactly when the row is not visible or is the first |
| Forms.Form.NextThenPrevious | Source/Core/Form.swift:284-296 | going to the next row and then back to the previous one returns to the start, and the other way round |
| Visibility.SlotAfterVisiblePredecessor | Source/Core/Section.swift:332-342 | the slot lies within the visible list and follows an element that comes earlier in the full list |
| Visibility.FindVisiblePredecessor | Source/Core/Section.swift:335-340 | the backward while loop finds the visible position just before the slot, or nothing when the slot is the start |
| Visibility.InsertionIndex | Source/Core/Section.swift:242-250 | the insertion index into the full list never exceeds its length |
| Visibility.ReplaceVisible | Source/Core/Section.swift:225 | replacing a range of the visible list changes its length by the new elements minus the replaced ones |
| Visibility.SlotBounds | Source/Core/Section.swift:332-342 | every visible element before the slot comes earlier in the full list than the shown element's position, and every one from the slot on comes later or at it |
| Visibility.ShowPlacement | Source/Core/Section.swift:332-342 | showing a hidden element inserts it where every visible element before it precedes it in the full list and every one after it follows it |
| Visibility.ShowKeepsSubsequence | Source/Core/Form.swift:302-312 | after showing, the visible list is still the full list with some elements left out, in order |
| Visibility.ShowMembership | Source/Core/Section.swift:333-334 | after showing, an element is visible iff it was visible already or it is the shown element and belongs to the full list |
| Visibility.HideShowOthers | Source/Core/Section.swift:326-342 | hiding or showing one element leaves every other element's visibility alone |
| Visibility.SlotUnique | Source/Core/Section.swift:332-342 | the slot is the only position splitting the visible list into earlier and later elements |
| Visibility.RemoveAtSplit | Source/Core/Section.swift:326-330 | after removing a visible element, the elements before it precede it in the full list and those after it follow it |
| Visibility.HideThenShow | Source/Core/Section.swift:326-342 | hiding a visible element and showing it again gives back the visible list |
| Visibility.ShowThenHide | Source/Core/Section.swift:326-342 | showing a hidden element and hiding it again gives back the visible list |
| Visibility.ExceptIsSubsequence | Source/Core/Section.swift:219-224 | the full list without the removed elements is a subsequence of it |
| Visibility.KeptIsSubsequence | Source/Core/Section.swift:218-231 | the visible elements outside a replaced range keep their order within the full list without the replaced elements |
| Visibility.InsertAllAtDistinct | Source/Core/Section.swift:227 | inserting distinct new elements into a distinct list keeps it free of duplicates |
| Visibility.InsertionIndexSplits | Source/Core/Section.swift:242-250 | the insertion index puts new elements after every visible element before the range and before every one after it |
| Visibility.ReplaceKeepsSubsequence | Source/Core/Section.swift:218-231 | after replaceRange the full list has no duplicates and the visible list is a subsequence of it |
| Observers.AddOne | Source/Core/Form.swift:262-273 | after one pass the tag has a list for the condition type; every other tag's entry is untouched |
| Observers.AddOneObservers | Source/Core/Form.swift:263-272 | one pass appends the observer to the list of its tag and type unless it is there already, and leaves every other list alone |
| Observers.AddAllObservers | Source/Core/Form.swift:261-275 | after addRowObservers the observer is appended once to the list of every tag it names, unless already there; every other list is as before |
| Observers.AddAllNoDuplicates | Source/Core/Form.swift:261-275 | adding keeps every list free of duplicates and leaves the observer registered under all its tags |
| Observers.RemoveAllAsWrittenIsIdentity | Source/Core/Form.swift:277-282 | as written the loop edits a local copy, so the table is left as it was |
| Observers.RemoveAllAsWrittenKeepsObserver | Source/Core/Form.swift:279-280 | as written a removed observer stays registered under its tags |
| Observers.RemoveOne | Source/Core/Form.swift:279-280 | the corrected pass changes only the named tag's entry |
| Observers.RemoveOneObservers | Source/Core/Form.swift:279-280 | the corrected pass drops the observer from its tag's list of that type and leaves every other list alone |
| Observers.RemoveAllObservers | Source/Core/Form.swift:277-282 | after the corrected removeRowObservers the observer is gone from the list of every tag named, the rest kept in order, every other list unchanged |
| Observers.AddThenRemove | Source/Core/Form.swift:261-282 | adding an unregistered observer and removing it again (corrected) gives back every list |
| RowValues.ObserversFor | Source/Core/Row.swift:24 | the observers of a tag for a condition type are the table's list, or none when the table has no entry, as `rowObservers[t]?[type]` reads it |
| RowValues.EvaluateHiddenObservers | Source/Core/Row.swift:24-28 | after the loop every hidden observer of the tag agrees with its hidden condition on the form's values: a row is visible exactly when its condition is false, and so is a section |
| RowValues.EvaluateDisabledObservers | Source/Core/Row.swift:29-33 | after the loop every disabled observer's `disabledCache` agrees with its condition, and the hidden observers settled before stay settled |
| RowValues.HiddenObservers | Source/Core/Row.swift:22-24 | a row outside a form, or one without a tag, has no observers to re-evaluate |
| RowValues.DisabledObservers | Source/Core/Row.swift:22-29 | a row outside a form, or one without a tag, has no disabled observers to re-evaluate |
| RowValues.SetValue | Source/Core/Row.swift:14-35 | the value is stored; an unchanged value or a row outside a form changes nothing else; a change is reported to the delegate when there is one; for a tagged row `tagToValues` takes the new value and every hidden then every disabled observer of the tag agrees with its condition; registry, observers and sections are unchanged |
| RowValues.StoreTagged | Source/Core/Row.swift:23-33 | the value table takes the new value under the tag, then the hidden observers and the disabled observers are re-evaluated on it |
| RowValues.DefaultDisplayValueFor | Source/Core/Row.swift:47-52 | no text for no value; a text value is shown as itself; a number is shown with a leading minus sign exactly when it is negative |
| RowValues.DisplayedNumberReads | Source/Core/Row.swift:49 | a non-negative number is shown as decimal digits that read back as the number |
| RowValues.SetBaseValue | Source/Core/Row.swift:37-41 | `value = newValue as? T`: a value of the row's own kind is stored, any other value clears the row |
| RowValues.SetValueAt | Source/Core/Form.swift:117-118 | the registered row takes the cast value and every other registered row keeps its value; the registry and observer table are unchanged |
| RowValues.SetValues | Source/Core/Form.swift:115-120 | every key naming a registered row gives that row the cast value, keys without a row are ignored, and rows whose tag is not a key keep their value |
| InlineRows.BelowRow | Source/Core/InlineRowType.swift:85 | the row below an expanded row belongs to its section's visible rows |
| InlineRows.CollapseInlineRow | Source/Core/InlineRowType.swift:80-88 | a row without an inline row shown changes nothing; otherwise the row just below it leaves the visible and full lists and the registry loses its tag, and the row no longer has an inline row |
| InlineRows.RemoveInline | Source/Core/Section.swift:218-231 | removeAtIndex drops the visible row at that position from both lists and unregisters its tag; nothing else in the form changes |
| InlineRows.SpliceOut | Source/Core/Section.swift:218-231 | the visible row is spliced out of the visible list and the full list loses it, keeping the section consistent |
| InlineRows.LastStaysLast | Source/Core/InlineRowType.swift:85 | removing a row other than the last keeps the last row last |
| InlineRows.CollapseOthers | Source/Core/InlineRowType.swift:60-66 | after the pass over every row of the form, each inline row type among them is settled: it has no inline row shown, or it is the last visible row of its section, where its collapse would trap and the pass goes by it; no row gains an inline row and no other state of the form changes |
| InlineRows.CollapseStep | Source/Core/InlineRowType.swift:61-65 | one pass of that loop keeps the rows already settled settled and settles the current one |
| InlineRows.CollapseInForm | Source/Core/InlineRowType.swift:80-88 | collapsing inside a form: the inline row below is removed exactly when one was shown |
| InlineRows.InsertInline | Source/Core/Section.swift:218-231 | inserting a fresh untagged row at a position puts it there in the visible list; the rest of the form is kept |
| InlineRows.InsertInForm | Source/Core/Section.swift:218-231 | the same, inside a form whose sections stay consistent |
| InlineRows.InsertBelow | Source/Core/InlineRowType.swift:70-73 | the inline row goes right below the row, which now has it as its inline row |
| InlineRows.InsertBelowKeeping | Source/Core/InlineRowType.swift:70-73 | inserting the inline row keeps every other settled row settled |
| InlineRows.RowsInSections | Source/Core/InlineRowType.swift:61 | every row of the form belongs to one of its sections |
| InlineRows.ExpandInForm | Source/Core/InlineRowType.swift:50-75 | with AnotherInlineRowIsShown every other inline row is settled first; the new row is the row's inline row, right below it, exactly when the row is visible; without that option the row's section gets the new row right after the row when the row is visible and is otherwise unchanged, and every other section keeps its rows |
| InlineRows.ExpandInlineRow | Source/Core/InlineRowType.swift:50-75 | nothing happens when an inline row is already shown or the row is not in a form; otherwise a fresh untagged row of the same kind holding the row's value becomes its inline row right below it when the row is visible, and other inline rows are settled when the options ask for it; without that option only the row's section changes, by the new row right after the row |
| InlineRows.ToggleInlineRow | Source/Core/InlineRowType.swift:93-100 | a shown inline row is collapsed, the row just below leaving the section; otherwise the row is expanded, with the same section lists as ExpandInlineRow |
| Options.Union | Source/Core/Form.swift:30-33 | a union contains every member of either operand, as the default option sets are built |
| Options.OptionFacts | Source/Core/Core.swift:348-406 | the zero members (`Disabled`, `Never`) are in every set; the default navigation options contain `Enabled` and `SkipCanNotBecomeFirstResponderRow` but not `StopDisabledRow`; the default inline hide options contain both non-zero members |
| Conditions.Cast | Source/Core/Row.swift:38-41 | a value assigned through `baseValue` survives iff it has the row's type; otherwise the row gets nil |
| Conditions.CastIdempotent | Source/Core/Row.swift:38-41 | casting twice is casting once, and a value of the row's type is kept unchanged |
| Conditions.BooleanLiteral | Source/Core/Core.swift:280-288 | a boolean-literal condition is a function condition with no dependency tags that evaluates to the literal on every value table |
| Presentation.CompletionHandler | Source/Core/Core.swift:160-173 | every case yields its own completion callback |
| Presentation.CreateController | Source/Core/Core.swift:211-238 | no controller exactly for the two segue cases; otherwise the provider's controller, with the popover style forced for `Popover`, and the mode's callback installed iff the controller is a row controller and the mode has a callback |
| Presentation.CreatedControllerCallsBack | Source/Core/Core.swift:160-238 | a row controller created for a mode with a callback carries exactly the mode's `completionHandler` |
| LegacyCore.DictionaryValuesToEvaluatePredicate | Source/Core.swift:584-590 | the table has one entry per registered tag, holding that row's current value (nil standing for `NSNull`) |
| LegacyCore.RebuiltTableIsStored | Source/Core.swift:584-590 | the rebuilt table equals the stored `tagToValues` exactly when the stored table agrees with the registered rows |
| LegacyCore.PostalAddressEquals | Source/Core.swift:3063-3065 | two postal addresses are equal iff all five optional fields agree |
| Selection.SelectedRows | Source/Core/SelectableSection.swift:60-64 | the selected rows in increasing order: exactly the positions of selectable rows holding a value |
| Selection.SelectedRow | Source/Core/SelectableSection.swift:53-55 | the first selectable row holding a value, or none when no row is selected |
| Selection.Tap | Source/Core/SelectableSection.swift:72-85 | after a tap the rows are `Tapped(old rows)`: under single selection every other row holding a value is cleared, then the tapped row takes its new value |
| Selection.MultipleTapToggles | Source/Core/SelectableSection.swift:75-77 | multiple selection toggles the tapped row between nil and its `selectableValue` and leaves every other row unchanged |
| Selection.MultipleTapTwice | Source/Core/SelectableSection.swift:75-77 | under multiple selection two taps on the same row give the section back |
| Selection.SelectedWithin | Source/Core/SelectableSection.swift:60-64 | when only one position may hold a value, the selection is that position if it is selected and empty otherwise |
| Selection.SingleTapSelectsAtMostOne | Source/Core/SelectableSection.swift:78-84 | under single selection every other row ends without a value, at most one row is selected and the selected row, if any, is the tapped one |
| Selection.SingleWithoutDeselectionKeeps | Source/Core/SelectableSection.swift:78-84 | with deselection disabled the tapped row always ends selected, alone |
| Selection.SingleWithDeselectionToggles | Source/Core/SelectableSection.swift:78-84 | with deselection enabled a tap on the selected row leaves nothing selected and a tap on an unselected row selects it alone |
| Selection.DefaultDeselects | Source/Core/SelectableSection.swift:83-100 | under the default selection type (single with deselection) tapping the selected row clears the selection |
| ResultBuilders.RowsOf | Source/Core/ResultBuilders.swift:30-36 | a row provides exactly itself; an array provides its elements |
| ResultBuilders.BuildBlockConcat | Source/Core/ResultBuilders.swift:40-54 | flattening two runs of components is flattening each and concatenating |
| ResultBuilders.BuildBlockOne | Source/Core/ResultBuilders.swift:30-42 | a single component contributes exactly its own rows |
| ResultBuilders.BuildBlockPositions | Source/Core/ResultBuilders.swift:40-54 | row j of component k sits in the block right after all rows of the earlier components |
| ResultBuilders.BuildOptional | Source/Core/ResultBuilders.swift:56-58 | an absent block contributes no rows; a present one its flattened rows |
| ResultBuilders.BuildExpressionRow | Source/Core/ResultBuilders.swift:64-66 | a nil row contributes nothing; a row contributes exactly itself |
| ResultBuilders.BuildExpressionTag | Source/Core/ResultBuilders.swift:60-62 | a string contributes one new, detached row tagged with that string |
| ResultBuilders.StayingOutsideForm | Source/Core/Section.swift:202-214 | rows added to a section outside any form all stay visible |
| ResultBuilders.BuildFinalResult | Source/Core/ResultBuilders.swift:44-46 | the rows become a new section outside any form holding them all, in order and visible, with each row's section set |
| Navigation.OptionsInEffect | Source/Core/Core.swift:883 | the controller's options when set; otherwise the form default, which enables navigation and skips rows that cannot become first responder |
| Navigation.Navigate | Source/Core/Core.swift:881-897 | nil when navigation is disabled; any row found is visible and lands (enabled and able to become first responder) |
| Navigation.NextRowForRow | Source/Core/Core.swift:881-897 | over the form's visible rows (stepped with Source/Core/Form.swift:284-296): nil when navigation is disabled; a found row is visible and lands |
| Navigation.NavigateDown | Source/Core/Core.swift:881-897 | moving down finds the first row below that lands with every row before it passable; nil means no landing row below is reachable past passable rows |
| Navigation.NextRowDown | Source/Core/Core.swift:881-897 | the same for the form's visible rows, moving down |
| Navigation.AllPassBelow | Source/Core/Core.swift:896 | passing the next row and then the rest up to a row is passing every row between |
| Navigation.AllPassAbove | Source/Core/Core.swift:896 | passing the previous row and then the rest down to a row is passing every row between |
| Navigation.AllPassNarrow | Source/Core/Core.swift:896 | passing every row of a range is passing every row of a narrower range |
| Navigation.NavigateUp | Source/Core/Core.swift:881-897 | moving up finds the first row above that lands with every row after it passable; nil means no landing row above is reachable past passable rows |
| Navigation.NextRowUp | Source/Core/Core.swift:881-897 | the same for the form's visible rows, moving up |
| Navigation.NotVisibleGoesNowhere | Source/Core/Form.swift:284-296 | from a row that is not visible navigation finds nothing in either direction |
| Navigation.InputAccessoryViewForRow | Source/Core/Core.swift:531-544 | nil iff navigation is disabled or the cell cannot become first responder; otherwise previous and next are enabled exactly when navigation up and down finds a row |
| Navigation.AccessoryNextButton | Source/Core/Core.swift:541 | the next button is enabled whenever a landing row below is reachable past passable rows |
| Navigation.ConfigurationInEffect | Source/Core/Core.swift:626 | the row's configuration, else the form's, else the default one |
| Navigation.ReturnKeyFor | Source/Core/Core.swift:622-632 | the configuration in effect's next-row key when a next row exists, else its default key |
| Navigation.ReturnKeyUnconfigured | Source/Core/Core.swift:373-380 | with no configuration the key is Next when a next row exists and Default otherwise |
| Navigation.ReturnKeyOnBeginEditing | Source/Core/Core.swift:622-632 | a row that does not handle return keys keeps its key; without navigation the default key is used; with a next row found by navigating down, the next-row key |
| Operators.FormPlusSection | Source/Core/Operators.swift:23-38 | `form +++ section` (and `+++=`) appends the section to the form and returns the same form: the section is now the form's last section, shown exactly when its hidden condition lets it, every row of it is registered under its tag and points to the section |
| Operators.SectionOf | Source/Core/Operators.swift:47 | `Section() <<< row`: a new, untagged, visible section outside any form holding just the row |
| Operators.FormPlusRow | Pods/Eureka/Source/Core/Operators.swift:62-66 | `form +++ row` (Swift 2: `+++=`) wraps the row in a new section appended to the form; the earlier sections are unchanged, the new one is shown and the row's tag is registered |
| Operators.SectionPlusSection | Source/Core/Operators.swift:58-62 | `section +++ section` makes a new form holding the two sections in order, both pointing to it, with the tags of both sections' rows registered |
| Operators.SectionPlusRow | Pods/Eureka/Source/Core/Operators.swift:92-96 | `section +++ row` makes a new form whose first section is the given one and whose second is a new section holding only the row |
| Operators.RowPlusRow | Source/Core/Operators.swift:72-75 | `row +++ row` makes a new form of two new sections, one row each, in the order written |
| Operators.SectionPlusRowInto | Source/Core/Operators.swift:87-90 | `section <<< row` appends the row to the section and returns that section: the row is last among all rows, and last among the visible rows exactly when its hidden condition lets it stay |
| Operators.RowPlusRowInto | Source/Core/Operators.swift:100-104 | `row <<< row` makes a new section outside any form holding the two rows in order, both visible |
| Operators.SectionAddAll | Source/Core/Operators.swift:112-114 | `section += rows` appends all rows in order; the visible rows grow by those that stay visible, and every row points to the section |
| Operators.FormAddAll | Source/Core/Operators.swift:122-124 | `form += sections` appends all sections in order; the shown sections grow by those not hidden, and every section points to the form |
| Operators.Precedence | Source/Core/Operators.swift:13 | the two operators are declared with precedence 95 (`+++`) and 100 (`<<<`) |
| Operators.SectionChain | Source/Core/Operators.swift:77 | a chain `r0 <<< r1 <<< …` groups to the left and keeps its operands in the order written |
| Operators.FormChain | Pods/Eureka/Source/Core/Operators.swift:29-39 | a chain of `+++` over groups joined by `<<<` parses with every `<<<` below every `+++` and both grouping to the left |
| Operators.FormChainLeaves | Pods/Eureka/Source/Core/Operators.swift:29-39 | such a chain keeps all its operands in the order written |
| Operators.AtLeastWeaken | Source/Core/Operators.swift:13 | an expression whose operators all bind at least as tightly as `<<<` also binds at least as tightly as `+++` |
| Operators.RowPlusRowGroups | Source/Core/Operators.swift:73 | `Section() <<< left +++ Section() <<< right` groups as `(… <<< left) +++ (… <<< right)`, which is what the two-row form relies on |
| Operators.LeftAssociative | Source/Core/Operators.swift:60 | `form +++ left +++ right` groups as `(form +++ left) +++ right` |
| Validation.SameErrorIsEquality | Source/Core/Validation.swift:28-34 | two validation errors are `==` exactly when their messages agree, i.e. when they are the same value |
| Validation.ValidationOptionFacts | Source/Core/Validation.swift:56-61 | the option bits are 1, 2, 4 and 8; `ValidatesAlways` contains on-change and on-blur and neither on-demand nor on-change-after-blurred |
| Validation.RangeError | Source/Validations/RuleRange.swift:34-37 | every range rule stores an error that carries a message |
| Validation.RangeIsValid | Source/Validations/RuleRange.swift:39-100 | nil always passes; greater-than fails iff value <= min, greater-or-equal iff value < min, smaller-than iff value >= max, smaller-or-equal iff value > max; a failure is the rule's stored error |
| Validation.RangeBoundary | Source/Validations/RuleRange.swift:39-100 | at one bound, greater-or-equal and smaller-than (and greater-than and smaller-or-equal) split every value: exactly one of each pair passes |
| Validation.RequiredSpec | Source/Validations/RuleRequired.swift:30-36 | `Required` rejects nil and the empty string and accepts every other value |
| Validation.NotNot | Source/Validations/RuleRequired.swift:46-48 | `Not` negates its rule on every value, so `Not(Not(r))` agrees with `r` |
| Validation.NotRequired | Source/Validations/RuleRequired.swift:30-48 | `Not(Required)` accepts exactly nil and the empty string |
| Validation.LengthSpec | Source/Validations/RuleLength.swift:46-82 | nil and "" always pass; a non-empty string passes iff the comparator holds on its character count; longer-than, shorter-than and exactly mean count > n, count < n and count = n |
| Validation.ValueRuleSpec | Source/Validations/RuleLength.swift:104-107 | `Value` accepts nil and otherwise exactly the numbers its comparator contains |
| Validation.EqualsToRowInForm | Source/Validations/RuleEqualsToRow.swift:29-34 | the form initializer keeps form, tag and message, and leaves the row and the id unset |
| Validation.EqualsToGivenRow | Source/Validations/RuleEqualsToRow.swift:36-41 | the row initializer keeps the row and message, and leaves form, tag and id unset |
| Validation.EqualsToRowIsValid | Source/Validations/RuleEqualsToRow.swift:49-52 | no error iff the other row (the given row when there is one, else the form's row for the tag, which must exist) holds the same value, two nils included; an error is the stored one |
| Validation.MakeRegExpRule | Source/Validations/RuleRegExp.swift:42-46 | the initializer stores pattern, `allowsEmpty` (default true) and the message (default "Invalid field value!") |
| Validation.RegExpIsValid | Source/Validations/RuleRegExp.swift:48-59 | a non-empty value is an error iff it does not match the pattern; nil or "" is an error iff empty values are not allowed; an error is the stored one |
| Validation.MakeURLRule | Source/Validations/RuleURL.swift:30-37 | whatever is passed, the rule allows empty values and does not require a protocol; only the message is taken |
| Validation.URLIsValid | Source/Validations/RuleURL.swift:39-51 | a non-empty `absoluteString` is an error iff it does not match the URL pattern; nil or "" is an error iff empty values are not allowed |
| Validation.URLRuleAllowsEmpty | Source/Validations/RuleURL.swift:30-51 | a rule built by the initializer never rejects a missing or empty URL, and its verdict does not depend on the ignored arguments |
| Validation.FirstWithId | Source/Core/Validation.swift:81-87 | the position found is the first rule with that id; none means no rule has it |
| Validation.RuleSet.constructor | Source/Core/Validation.swift:70-72 | a new rule set holds no rules |
| Validation.RuleSet.AddRule | Source/Core/Validation.swift:74-79 | the rule is appended after the existing rules |
| Validation.RuleSet.RemoveRuleWith | Source/Core/Validation.swift:81-87 | the rules become the old rules without their first rule with that id |
| Validation.RuleSet.RemoveAllRules | Source/Core/Validation.swift:89-91 | the set becomes empty |
| Validation.RemoveFirstWithIdSpec | Source/Core/Validation.swift:81-87 | with no matching id the rules are unchanged; otherwise exactly the first match is dropped and the rest keep their order |
| Validation.FirstWithIdAppended | Source/Core/Validation.swift:74-87 | after appending a rule with a fresh id, the first rule with that id is the appended one |
| Validation.AddThenRemove | Source/Core/Validation.swift:74-87 | adding a rule with a fresh id and then removing that id gives the original rules back |
| Validation.ValidationResult.Errors | Source/Validators/ValidationResult.swift:12-17 | an invalid result lists exactly its one message |
| Validation.ValidIffNoErrors | Source/Validators/ValidationResult.swift:5-17 | a result is valid iff it lists no errors, and it never lists more than one |
| Validation.PresenceValidate | Source/Validators/PresenceValidator.swift:8-13 | the result is about the given row; it is valid iff the row's `baseValue` is non-nil (the empty string counts as present); an invalid result carries the validator's message |
| Validation.RegexValidate | Source/Validators/RegexValidator.swift:12-22 | valid iff `baseValue` is a string in which the regex is found; nil and non-strings are invalid with the validator's message |
| Pickers.TupleEquals | Source/Rows/DoublePickerRow.swift:26-28 | two tuples are equal iff they are the same value |
| Pickers.Tuple3Equals | Source/Rows/TriplePickerRow.swift:27-29 | two triples are equal iff they are the same value |
| Pickers.SelectedFirstOf | Source/Rows/DoublePickerRow.swift:116-118 | the value's first part, else the first of the first options |
| Pickers.SelectIsOffered | Source/Rows/DoublePickerRow.swift:71-95 | every selection leaves a value whose second part is offered for its first, holding the picked option in the picked component |
| Pickers.SelectKeepsSecond | Source/Rows/DoublePickerRow.swift:73-88 | a new first part keeps the second part when that is still offered; otherwise the second part becomes the first option offered |
| Pickers.SelectAllIsOffered | Source/Rows/DoublePickerRow.swift:71-95 | after any sequence of picks an offered value stays offered |
| Pickers.DoublePickerRow.constructor | Source/Rows/DoublePickerRow.swift:100-114 | no value, no first options, no second options for any first part |
| Pickers.DoublePickerRow.SelectedFirst | Source/Rows/DoublePickerRow.swift:116-118 | the row's value's first part, else its first option |
| Pickers.DoublePickerRow.NumberOfRows | Source/Rows/DoublePickerRow.swift:57-60 | the first options' count in component 0; otherwise the count of second options for the selected first part |
| Pickers.DoublePickerRow.MultipleNumberOfRows | Source/Rows/MultiplePickerRow.swift:54-56 | the first options' count in component 0; no rows in component 1 without a value, otherwise the second options' count for the value's first part |
| Pickers.DoublePickerRow.DidSelectRow | Source/Rows/DoublePickerRow.swift:71-95 | only the value changes, to the selection rule's value; an offered value stays offered |
| Pickers.DoubleDisplay | Source/Rows/DoublePickerInputRow.swift:105-110 | the no-value text without a value; otherwise the two parts joined by ", " |
| Pickers.SelectedSecond | Source/Rows/TriplePickerRow.swift:163-165 | the value's second part, else the first second option for the first first option |
| Pickers.SelectedFirst3 | Source/Rows/TriplePickerRow.swift:159-161 | the value's first part, else the first of the first options |
| Pickers.Select3IsOffered | Source/Rows/TriplePickerRow.swift:82-134 | every selection leaves a value whose later parts are offered, holding the picked option in the picked component |
| Pickers.CascadeKeeps | Source/Rows/TriplePickerRow.swift:90-93 | a new first part keeps the second part iff it is offered, then keeps the third part iff it is offered for the new pair, falling back to the first option otherwise |
| Pickers.Select3AllIsOffered | Source/Rows/TriplePickerRow.swift:82-134 | after any sequence of picks an offered value stays offered |
| Pickers.TriplePickerRow.constructor | Source/Rows/TriplePickerRow.swift:139-157 | no value and no options for any component |
| Pickers.TriplePickerRow.NumberOfRows | Source/Rows/TriplePickerRow.swift:60-69 | the count of options the component offers for the selected earlier parts |
| Pickers.TriplePickerRow.DidSelectRow | Source/Rows/TriplePickerRow.swift:82-134 | only the value changes, to the three-component selection rule's value; an offered value stays offered |
| Pickers.TripleDisplay | Source/Rows/TriplePickerInputRow.swift:142-147 | the no-value text without a value; otherwise the three parts joined by ", " |
| ImageRows.SourceSet | Source/Rows/ImageRow.swift:17 | a single source's set has exactly one bit |
| ImageRows.SourceEncoding | Source/Rows/ImageRow.swift:14-22 | the library, camera and saved-photos sets are bits 1, 2 and 4, All is 7 and holds exactly the sets within those bits, and the picker raw value decodes each single source back |
| ImageRows.Available | Source/Rows/ImageRow.swift:74-84 | the available set lies within All and holds each source iff that source is available |
| ImageRows.NarrowedWithinAll | Source/Rows/ImageRow.swift:86 | narrowing to available sources stays within All |
| ImageRows.SheetActions | Source/Rows/ImageRow.swift:101-131 | the sheet offers "Take Photo", "Photo Library" and "Saved Photos" iff the camera, library and saved-photos sources remain, "Clear Photo" iff clearing is on and there is an image, and no Cancel yet |
| ImageRows.SingleActionIsOneSource | Source/Rows/ImageRow.swift:133-137 | a single action means exactly one source and no clear option, and the raw value names that source |
| ImageRows.OutcomeSpec | Source/Rows/ImageRow.swift:88-145 | the selector iff no source is left; the picker only for one source with no clear option, and for that source; otherwise a sheet of at least three entries ending in Cancel, with Clear Photo exactly when there is an image to clear |
| ImageRows.ImageRow.constructor | Source/Rows/ImageRow.swift:41-50 | every source, no image, clearing on |
| ImageRows.ImageRow.CustomDidSelect | Source/Rows/ImageRow.swift:68-146 | a disabled row shows the selector and keeps its sources; otherwise the sources shrink to the available ones and the outcome follows them; the image and clear setting are untouched |
| ImageRows.ImageRow.AvailableSources | Source/Rows/ImageRow.swift:74-84 | the three availability answers collected into the available set |
| ImageRows.ImageRow.ActionsFor | Source/Rows/ImageRow.swift:101-131 | the actions added one by one are the sheet's actions |
| ImageRows.ImageRow.Clear | Source/Rows/ImageRow.swift:123-126 | the clear handler removes the image and nothing else |
| ImageRows.NarrowedSources | Source/Rows/ImageRow.swift:86 | every source left after narrowing was there before and is available |
| Decimal.NatToString | Pods/PhoneNumberKit/PhoneNumberKit/Formatter.swift:114 | the text of a number is a non-empty run of digits without a leading zero |
| Decimal.IntToString | Source/Validations/RuleRange.swift:36 | the text starts with "-" iff the number is negative |
| Decimal.ParseUInt64 | Pods/PhoneNumberKit/PhoneNumberKit/PhoneNumberParser.swift:103 | a parsed value fits in 64 bits; the empty string and a lone "+" give nil |
| Decimal.NatToStringValue | Pods/PhoneNumberKit/PhoneNumberKit/Formatter.swift:114 | the digits of a number's text have that number's value |
| Decimal.ParseNatToString | Pods/PhoneNumberKit/PhoneNumberKit/PhoneNumberParser.swift:103 | parsing the text of a 64-bit number gives the number back |
| PhoneFormatting.Digits | Source/Rows/Common/PhoneFormatter.swift:15 | the filtered text is no longer than the input and consists of decimal digits only |
| PhoneFormatting.DigitsOfDigits | Source/Rows/Common/PhoneFormatter.swift:15 | a string of digits passes the filter unchanged |
| PhoneFormatting.DigitsAppend | Source/Rows/Common/PhoneFormatter.swift:15 | filtering a concatenation is concatenating the filtered parts |
| PhoneFormatting.DigitsIdempotent | Source/Rows/Common/PhoneFormatter.swift:15 | filtering twice is filtering once |
| PhoneFormatting.GetObjectValue | Source/Rows/Common/PhoneFormatter.swift:13-18 | without an out-pointer the conversion fails and stores nothing; otherwise it succeeds and stores the digits of the text |
| PhoneFormatting.GetNewFormattedString | Source/Rows/Common/PhoneFormatter.swift:35-65 | the string built step by step is the `1 (ddd) ddd-rest` layout of the input |
| PhoneFormatting.AreaStep | Source/Rows/Common/PhoneFormatter.swift:49-54 | writing the area code advances the output by "(" + three characters + ") " and leaves the prefix layout of the rest |
| PhoneFormatting.PrefixStep | Source/Rows/Common/PhoneFormatter.swift:55-60 | writing the prefix advances the output by three characters and "-" and leaves the remainder |
| PhoneFormatting.NoDigits | Source/Rows/Common/PhoneFormatter.swift:15 | a text without digits filters to the empty string |
| PhoneFormatting.DigitsWrapped | Source/Rows/Common/PhoneFormatter.swift:15 | digits between two runs of non-digits filter to themselves |
| PhoneFormatting.PrefixRoundTrip | Source/Rows/Common/PhoneFormatter.swift:55-62 | the digits of the layout after the area code are the input digits |
| PhoneFormatting.AreaRoundTrip | Source/Rows/Common/PhoneFormatter.swift:49-62 | the digits of the layout after the leading "1" are the input digits |
| PhoneFormatting.LayoutRoundTrip | Source/Rows/Common/PhoneFormatter.swift:13-65 | for digit input formatting only inserts separators: reading the digits of the formatted string gives the input back |
| PhoneFormatting.LayoutLength | Source/Rows/Common/PhoneFormatter.swift:42-62 | the formatted length is the input length plus one for a leading "1", three for an area code when more than two characters follow, and one more when more than five follow |
| PhoneFormatting.StringForObjectValue | Source/Rows/Common/PhoneFormatter.swift:20-27 | a string object yields its layout; any other object yields no string |
| PhoneFormatting.PositionOffset | Source/Rows/Common/PhoneFormatter.swift:31 | the caret offset is the new length minus the old, nil counting as empty |
| PhoneFormatting.NewPosition | Source/Rows/Common/PhoneFormatter.swift:29-33 | the caret moves by that offset when the text input has a position there and stays put otherwise |
| PhoneRegex.Compile | Pods/PhoneNumberKit/PhoneNumberKit/RegularExpressions.swift:45-53 | compiling succeeds, with that pattern, exactly when the engine accepts it, and otherwise throws `GeneralError` |
| PhoneRegex.RegexCache.constructor | Pods/PhoneNumberKit/PhoneNumberKit/RegularExpressions.swift:13-15 | the shared object starts with an empty cache |
| PhoneRegex.RegexCache.RegexWithPattern | Pods/PhoneNumberKit/PhoneNumberKit/RegularExpressions.swift:40-55 | the answer is always that of compiling the pattern; a cached pattern leaves the cache as it was; a newly compiled pattern is stored; earlier entries are kept; the cache stays consistent |
| PhoneRegex.RegexMatches | Pods/PhoneNumberKit/PhoneNumberKit/RegularExpressions.swift:57-70 | the engine's matches in order when the pattern compiles, `GeneralError` otherwise |
| PhoneRegex.AnyAtStart | Pods/PhoneNumberKit/PhoneNumberKit/RegularExpressions.swift:94-106 | true iff some match begins at location 0 |
| PhoneRegex.MatchesAtStart | Pods/PhoneNumberKit/PhoneNumberKit/RegularExpressions.swift:94-106 | true iff the pattern compiles and some match begins the string |
| PhoneRegex.StringPositionByRegex | Pods/PhoneNumberKit/PhoneNumberKit/RegularExpressions.swift:108-118 | -1 exactly when the pattern does not compile or has no match; otherwise the location of the first match |
| PhoneRegex.MatchesExist | Pods/PhoneNumberKit/PhoneNumberKit/RegularExpressions.swift:120-131 | false for a nil pattern; otherwise true iff the pattern compiles and has a match |
| PhoneRegex.Anchored | Pods/PhoneNumberKit/PhoneNumberKit/RegularExpressions.swift:134-140 | the pattern wrapped as `^(` pattern `)$` |
| PhoneRegex.MatchesEntirely | Pods/PhoneNumberKit/PhoneNumberKit/RegularExpressions.swift:134-140 | false for a nil pattern; otherwise whether the anchored pattern compiles and matches |
| PhoneRegex.TestStringLengthAgainstPattern | Pods/PhoneNumberKit/PhoneNumberKit/RegularExpressions.swift:251-258 | answers exactly as `matchesEntirely` with the pattern |
| PhoneRegex.Substring | Pods/PhoneNumberKit/PhoneNumberKit/RegularExpressions.swift:267-270 | the characters of the range when it lies inside the string, and never more than the range or the string holds |
| PhoneRegex.Substrings | Pods/PhoneNumberKit/PhoneNumberKit/RegularExpressions.swift:142-155 | one substring per match, in order, each the text of its match's range |
| PhoneRegex.MatchedStringByRegex | Pods/PhoneNumberKit/PhoneNumberKit/RegularExpressions.swift:142-155 | nothing when the pattern does not compile; otherwise the text of each match, in order |
| PhoneRegex.ReplaceStringByRegex | Pods/PhoneNumberKit/PhoneNumberKit/RegularExpressions.swift:159-207 | the string itself when the pattern does not compile or has no match; the first match replaced when there is exactly one; every match replaced when there are several |
| PhoneRegex.ReplaceFirstStringByRegex | Pods/PhoneNumberKit/PhoneNumberKit/RegularExpressions.swift:209-223 | the empty string when the pattern does not compile; the first match replaced when there is one; the string itself otherwise |
| PhoneRegex.UpperChar | Pods/PhoneNumberKit/PhoneNumberKit/RegularExpressions.swift:229 | upper-casing keeps digits as they are and turns no other character into a digit |
| PhoneRegex.UpperCase | Pods/PhoneNumberKit/PhoneNumberKit/RegularExpressions.swift:229 | each character is replaced by its ASCII upper-case form, so the length is kept (Unicode upper-casing, which can change the length, is not modelled) |
| PhoneRegex.StringByReplacingOccurrences | Pods/PhoneNumberKit/PhoneNumberKit/RegularExpressions.swift:225-235 | the string built character by character is the reference result: each character whose upper-case form is a key replaced by its value, all others dropped |
| PhoneRegex.ReplacedAppend | Pods/PhoneNumberKit/PhoneNumberKit/RegularExpressions.swift:225-235 | replacing in a concatenation is replacing in each part |
| PhoneRegex.DigitMapChar | Pods/PhoneNumberKit/PhoneNumberKit/Constants.swift:109 | under the digit mapping a character is kept, as itself, exactly when it is an ASCII digit |
| PhoneRegex.NormalizeKeepsDigits | Pods/PhoneNumberKit/PhoneNumberKit/PhoneNumberParser.swift:25-28 | normalising a number keeps exactly its ASCII digits, in order |
| PhoneRegex.NormalizeIdempotent | Pods/PhoneNumberKit/PhoneNumberKit/PhoneNumberParser.swift:25-28 | normalising twice is normalising once |
| PhoneRegex.TrimLeading | Pods/PhoneNumberKit/PhoneNumberKit/RegularExpressions.swift:241 | the longest suffix that does not start with a space character, all dropped characters being spaces |
| PhoneRegex.TrimTrailing | Pods/PhoneNumberKit/PhoneNumberKit/RegularExpressions.swift:241 | the longest prefix that does not end with a space character, all dropped characters being spaces |
| PhoneRegex.TrimEmpty | Pods/PhoneNumberKit/PhoneNumberKit/RegularExpressions.swift:239-249 | trimming leaves nothing exactly when every character is a space character |
| PhoneRegex.HasValue | Pods/PhoneNumberKit/PhoneNumberKit/RegularExpressions.swift:239-249 | true iff the value is non-nil and has a character outside the space set (no-break space, whitespace and newlines) |
| PhoneMetadata.StringField | Pods/PhoneNumberKit/PhoneNumberKit/MetadataTypes.swift:136-138 | a field reads as a string exactly when the dictionary exists and holds a string under the key |
| PhoneMetadata.AsDict | Pods/PhoneNumberKit/PhoneNumberKit/MetadataTypes.swift:68-79 | a value reads as a dictionary exactly when it is one |
| PhoneMetadata.BoolBody | Pods/PhoneNumberKit/PhoneNumberKit/MetadataTypes.swift:95-96 | the text that `boolValue` inspects is a suffix starting with no zero |
| PhoneMetadata.SkipWhile | Pods/PhoneNumberKit/PhoneNumberKit/MetadataTypes.swift:95-96 | skipping leading white space or zeros leaves a suffix that starts with neither |
| PhoneMetadata.BoolValue | Pods/PhoneNumberKit/PhoneNumberKit/MetadataTypes.swift:95-96 | `boolValue` is true only for a text that, after white space, a sign and zeros, starts with Y, y, T, t or a digit 1-9 |
| PhoneMetadata.BoolValueExamples | Pods/PhoneNumberKit/PhoneNumberKit/MetadataTypes.swift:95-96 | "true", "1" and " +01" read as true; "false", "0" and "" read as false |
| PhoneMetadata.DescOf | Pods/PhoneNumberKit/PhoneNumberKit/MetadataTypes.swift:135-140 | each description field is the dictionary's string under its key; without a dictionary every field is nil |
| PhoneMetadata.Texts | Pods/PhoneNumberKit/PhoneNumberKit/MetadataTypes.swift:175-179 | an array of strings gives its texts, one per element, in order |
| PhoneMetadata.LeadingDigitsOf | Pods/PhoneNumberKit/PhoneNumberKit/MetadataTypes.swift:173-184 | no entry gives no patterns; a string gives itself; an array of strings gives its elements in order; anything else gives no patterns |
| PhoneMetadata.FlagField | Pods/PhoneNumberKit/PhoneNumberKit/MetadataTypes.swift:186-188 | an absent or non-string flag is false; a string flag is its `boolValue` |
| PhoneMetadata.FormatFromJson | Pods/PhoneNumberKit/PhoneNumberKit/MetadataTypes.swift:169-190 | the format built field by field is the reference reading of the dictionary |
| PhoneMetadata.FormatDefaults | Pods/PhoneNumberKit/PhoneNumberKit/MetadataTypes.swift:169-190 | without a dictionary every field is nil, no leading-digit pattern is set and the prefix is not optional |
| PhoneMetadata.Inherited | Pods/PhoneNumberKit/PhoneNumberKit/MetadataTypes.swift:101-104 | a format without a formatting rule takes the territory's, one with a rule keeps it, and nothing else changes |
| PhoneMetadata.ArrayFormats | Pods/PhoneNumberKit/PhoneNumberKit/MetadataTypes.swift:99-107 | one format per array element |
| PhoneMetadata.TerritoryFromJson | Pods/PhoneNumberKit/PhoneNumberKit/MetadataTypes.swift:67-114 | the territory built field by field is the reference reading of the dictionary, none when the id or a parseable country code is missing (a crash in the source) |
| PhoneMetadata.TerritoryDefaults | Pods/PhoneNumberKit/PhoneNumberKit/MetadataTypes.swift:67-97 | the prefix for parsing falls back to the national prefix; `mainCountryForCode` is false unless given; every description is present, all nil without a dictionary; the country code fits in 64 bits |
| PhoneMetadata.FormatsInheritRule | Pods/PhoneNumberKit/PhoneNumberKit/MetadataTypes.swift:98-112 | formats from an array keep their order and inherit the territory's rule when they lack one; a single dictionary gives one format with its own rule |
| PhoneMetadata.ArrayFormatsAt | Pods/PhoneNumberKit/PhoneNumberKit/MetadataTypes.swift:99-107 | format k from an array is element k's format with the rule inherited |
| PhoneMetadata.FirstWithCode | Pods/PhoneNumberKit/PhoneNumberKit/Metadata.swift:82-84 | the first territory with the code; none when no territory has it |
| PhoneMetadata.LastMainWithCode | Pods/PhoneNumberKit/PhoneNumberKit/Metadata.swift:24-27 | the last main territory with the code; none when no main territory has it |
| PhoneMetadata.PerCodeSpec | Pods/PhoneNumberKit/PhoneNumberKit/Metadata.swift:22-30 | `metadataPerCode[c]` exists iff some territory has code c, and is then the last main territory with c, or the first territory with c when none is main |
| PhoneMetadata.FirstWithCodePrefix | Pods/PhoneNumberKit/PhoneNumberKit/Metadata.swift:22-30 | the first territory with a code among all but the last item is the first territory with it among all items |
| PhoneMetadata.LastWithId | Pods/PhoneNumberKit/PhoneNumberKit/Metadata.swift:28 | the last territory with the region id; none when no territory has it |
| PhoneMetadata.PerCountrySpec | Pods/PhoneNumberKit/PhoneNumberKit/Metadata.swift:28 | `metadataPerCountry[id]` exists iff some territory has that id, and is then the last one: later duplicates win |
| PhoneMetadata.WithCode | Pods/PhoneNumberKit/PhoneNumberKit/Metadata.swift:83 | the filter keeps exactly the territories with the code, and the first of them is the first with the code |
| PhoneMetadata.MainOnly | Pods/PhoneNumberKit/PhoneNumberKit/Metadata.swift:94 | the filter keeps exactly the main territories |
| PhoneMetadata.FetchCountriesForCode | Pods/PhoneNumberKit/PhoneNumberKit/Metadata.swift:82-85 | never nil; exactly the territories with the code |
| PhoneMetadata.FetchMainCountryMetadataForCode | Pods/PhoneNumberKit/PhoneNumberKit/Metadata.swift:92-104 | nil iff no territory has the code; otherwise the first territory with the code that is main for it, or, when none is, the first territory with the code |
| PhoneMetadata.PerCodeAgreesWithFetchMain | Pods/PhoneNumberKit/PhoneNumberKit/Metadata.swift:22-30 | when at most one territory per code is main, the `metadataPerCode` table and `fetchMainCountryMetadataForCode` give the same territory |
| PhoneMetadata.FetchMetadataForCountry | Pods/PhoneNumberKit/PhoneNumberKit/Metadata.swift:112-115 | nil iff no territory has the upper-cased region as id; otherwise the first such territory |
| PhoneMetadata.FirstWithId | Pods/PhoneNumberKit/PhoneNumberKit/Metadata.swift:113-114 | the first territory with the id; none when no territory has it |
| PhoneMetadata.Metadata.constructor | Pods/PhoneNumberKit/PhoneNumberKit/Metadata.swift:22-30 | the territories are kept in order, and the two tables are filled exactly as the per-code and per-country reference folds over them |
| PhoneParser.NormalizePhoneNumber | Pods/PhoneNumberKit/PhoneNumberKit/PhoneNumberParser.swift:25-28 | normalising keeps exactly the ASCII digits of the number, in order |
| PhoneParser.StartPosition | Pods/PhoneNumberKit/PhoneNumberKit/PhoneNumberParser.swift:90-96 | the code's digits start at 0, or at 1 after a leading "+" |
| PhoneParser.ShortestFrom | Pods/PhoneNumberKit/PhoneNumberKit/PhoneNumberParser.swift:97-108 | the smallest length, from i up to the maximum code length, at which the digits read as a code that has metadata; none when there is no such length |
| PhoneParser.PotentialCountryCodeSpec | Pods/PhoneNumberKit/PhoneNumberKit/PhoneNumberParser.swift:83-110 | 0 with the national number untouched for an empty number, a leading "0" or a lone "+"; otherwise a non-zero answer needs a known code of one to three digits, and the answer is the shortest known code with the national number being what follows it |
| PhoneParser.ExtractPotentialCountryCode | Pods/PhoneNumberKit/PhoneNumberKit/PhoneNumberParser.swift:83-110 | the loop over prefix lengths 1, 2, 3 computes the shortest known code and the digits after it (the corrected reading; see Findings) |
| PhoneParser.AsWrittenAgreesWithoutPlus | Pods/PhoneNumberKit/PhoneNumberKit/PhoneNumberParser.swift:83-110 | without a leading "+" the function as written gives the intended answer |
| PhoneParser.IddStrippedIsDigits | Pods/PhoneNumberKit/PhoneNumberKit/PhoneNumberParser.swift:200-229 | a number whose international prefix was stripped consists of digits only |
| PhoneParser.ExtractCountryCodeAsWritten | Pods/PhoneNumberKit/PhoneNumberKit/PhoneNumberParser.swift:83-110 | where extractCountryCode searches for a code (IDD always, plus sign once the plus characters are gone) the as-written extractPotentialCountryCode returns a result and it is the one extractCountryCode gives |
| PhoneParser.AsWrittenFromAgrees | Pods/PhoneNumberKit/PhoneNumberKit/PhoneNumberParser.swift:97-108 | from every length, the loop as written and the intended search agree when the digits start at 0 |
| PhoneParser.AsWrittenKeepsCodeDigit | Pods/PhoneNumberKit/PhoneNumberKit/PhoneNumberParser.swift:91-106 | with a leading "+", "+1234" with code 1 known gives the national number "1234" as written, against "234" intended |
| PhoneParser.AsWrittenOverrun | Pods/PhoneNumberKit/PhoneNumberKit/PhoneNumberParser.swift:97-102 | with a leading "+", "+12" with no known code reads past the end of the string as written |
| PhoneParser.IsNumberMatchingDesc | Pods/PhoneNumberKit/PhoneNumberKit/PhoneNumberParser.swift:190-192 | a number matches a description iff the description has a national pattern and that pattern matches the whole number |
| PhoneParser.CheckNumberType | Pods/PhoneNumberKit/PhoneNumberKit/PhoneNumberParser.swift:136-182 | the type is Unknown unless the general pattern is non-blank and matches; when it matches, the type is the result of the ordered chain of specific tests |
| PhoneParser.FixedOrMobileType | Pods/PhoneNumberKit/PhoneNumberKit/PhoneNumberParser.swift:167-181 | fixed-or-mobile iff fixed-line matches and the mobile pattern is the same or also matches; fixed line iff only fixed-line matches, with a different pattern; mobile iff only mobile matches; else Unknown |
| PhoneParser.FirstMatching | Pods/PhoneNumberKit/PhoneNumberKit/PhoneNumberParser.swift:143-166 | the first type in the list whose description matches; none when no description matches |
| PhoneParser.CheckNumberTypeOrder | Pods/PhoneNumberKit/PhoneNumberKit/PhoneNumberParser.swift:136-182 | the classification is an ordered list: Unknown without a general match, then the first match among pager, premium rate, toll free, shared cost, VOIP, personal number, UAN and voicemail, then the fixed-line and mobile tests |
| PhoneParser.FirstMatchingStep | Pods/PhoneNumberKit/PhoneNumberKit/PhoneNumberParser.swift:143-166 | the ordered search takes the head when it matches and otherwise searches the rest |
| PhoneParser.ParsePrefixAsIdd | Pods/PhoneNumberKit/PhoneNumberKit/PhoneNumberParser.swift:200-229 | the prefix is stripped exactly when the IDD pattern matches at position 0, the digit pattern compiles and the rest does not start with a digit group that normalises to "0"; then the number is the matched text followed by the result, and otherwise the number comes back unchanged |
| PhoneParser.StripInternationalPrefixAndNormalize | Pods/PhoneNumberKit/PhoneNumberKit/PhoneNumberParser.swift:261-277 | a number starting with plus signs has them removed and is reported as such; otherwise it is normalised, and without an international prefix reported as without plus sign; with one, as dialled with IDD or in default-country form |
| PhoneParser.StripNationalPrefix | Pods/PhoneNumberKit/PhoneNumberKit/PhoneNumberParser.swift:285-317 | without a prefix for parsing that compiles and matches the number is kept; otherwise it becomes the transformed number (the transform rule applied, or the text after the match), unless that would turn a number the general pattern accepts into one it rejects, in which case it is kept |
| PhoneParser.CutWithoutTransformRule | Pods/PhoneNumberKit/PhoneNumberKit/PhoneNumberParser.swift:300-306 | without a transform rule, a national prefix matched at the start is simply cut: the number is the matched text followed by the transformed number |
| PhoneParser.ExtractCountryCode | Pods/PhoneNumberKit/PhoneNumberKit/PhoneNumberParser.swift:39-75 | the only error is `TooShort`; a territory without an international prefix gives 0 and leaves the national number |
| PhoneParser.ExtractCountryCodeSpec | Pods/PhoneNumberKit/PhoneNumberKit/PhoneNumberParser.swift:39-75 | it throws exactly when a number with a plus sign or IDD has at most two characters left; such a longer number gives its potential country code; a default-country number changes the national number only when it yields the territory's own code |
| NumberFormatter.LeadingZeroValue | Pods/PhoneNumberKit/PhoneNumberKit/Formatter.swift:145-152 | a leading "0" does not change the value of a digit string |
| NumberFormatter.AdjustedNationalNumber | Pods/PhoneNumberKit/PhoneNumberKit/Formatter.swift:145-152 | the decimal national number, all digits, behind a "0" exactly when the number has a leading zero; it parses back to the national number |
| NumberFormatter.ToE164 | Pods/PhoneNumberKit/PhoneNumberKit/Formatter.swift:109-115 | without the prefix, the adjusted national number; with it, "+" then the country code's digits then the adjusted national number |
| NumberFormatter.ShortCodeDigits | Pods/PhoneNumberKit/PhoneNumberKit/Formatter.swift:114 | a code below 1000 has at most three digits, the longest country code |
| NumberFormatter.E164RoundTrip | Pods/PhoneNumberKit/PhoneNumberKit/Formatter.swift:109-115 | the E.164 text parses back: for a known code of at most three digits with no shorter known prefix, extracting the potential country code gives the code and the adjusted national number |
| NumberFormatter.ShortestIsFirstKnown | Pods/PhoneNumberKit/PhoneNumberKit/Formatter.swift:109-115 | the code search answers the first known length |
| NumberFormatter.FormatExtension | Pods/PhoneNumberKit/PhoneNumberKit/Formatter.swift:39-49 | nil iff there is no extension; otherwise the territory's preferred prefix, or " ext. " without one, followed by the extension |
| NumberFormatter.FirstEligibleFrom | Pods/PhoneNumberKit/PhoneNumberKit/Formatter.swift:59-74 | the first format from the start index that fits the number (its pattern matches it entirely and the last leading-digits pattern, if any, matches at position 0); none when no format fits |
| NumberFormatter.NumberFormatRule | Pods/PhoneNumberKit/PhoneNumberKit/Formatter.swift:76 | the international rule when the international form is asked for and exists, otherwise the plain rule |
| NumberFormatter.ApplyFormat | Pods/PhoneNumberKit/PhoneNumberKit/Formatter.swift:75-93 | the number unchanged without a rule or pattern; in national form with a non-blank prefix rule, the rule's first group replaced by the filled prefix rule is the template; otherwise the rule itself |
| NumberFormatter.FormattedNationalNumberSpec | Pods/PhoneNumberKit/PhoneNumberKit/Formatter.swift:56-97 | the first format that fits is applied and earlier formats play no part; with no fitting format the number is unchanged |
| NumberFormatter.FormatNationalNumber | Pods/PhoneNumberKit/PhoneNumberKit/Formatter.swift:56-97 | the loop over the formats computes the reference `formatNationalNumber` result |
| NumberFormatter.FormattedPhoneNumber | Pods/PhoneNumberKit/PhoneNumberKit/Formatter.swift:21-31 | the adjusted national number; when its country code has metadata, formatted by that territory and followed by the formatted extension, if any |
| NumberFormatter.ExtensionOnlyWithMetadata | Pods/PhoneNumberKit/PhoneNumberKit/Formatter.swift:21-31 | an extension appears, at the end, only when the country code has metadata |
| NumberFormatter.FormatPhoneNumber | Pods/PhoneNumberKit/PhoneNumberKit/Formatter.swift:21-31 | computes the reference `formatPhoneNumber` result |
| NumberFormatter.ToInternational | Pods/PhoneNumberKit/PhoneNumberKit/Formatter.swift:121-128 | without the prefix, the number in international form; with it, "+", the country code and a space before it |
| NumberFormatter.ToNational | Pods/PhoneNumberKit/PhoneNumberKit/Formatter.swift:134-139 | the number in national form, with no country code |
| NumberFormatter.InternationalPrefix | Pods/PhoneNumberKit/PhoneNumberKit/Formatter.swift:109-128 | an international text begins with the same "+code" as the E.164 text, followed by a space |
| PhoneKit.CodeIds | Pods/PhoneNumberKit/PhoneNumberKit/PhoneNumberKit.swift:46 | one code ID per territory, in order |
| PhoneKit.AllCountries | Pods/PhoneNumberKit/PhoneNumberKit/PhoneNumberKit.swift:45-48 | every territory's code ID, in metadata order |
| PhoneKit.CountriesForCode | Pods/PhoneNumberKit/PhoneNumberKit/PhoneNumberKit.swift:55-58 | never nil; exactly the code IDs of the territories with the code |
| PhoneKit.MainCountryForCode | Pods/PhoneNumberKit/PhoneNumberKit/PhoneNumberKit.swift:65-68 | nil iff no territory has the code; otherwise the code ID of the first main territory with the code, or of the first territory with the code when none is main |
| PhoneKit.CodeForCountry | Pods/PhoneNumberKit/PhoneNumberKit/PhoneNumberKit.swift:109-112 | nil iff no territory has the upper-cased region as id; otherwise the country code of such a territory |
| PhoneKit.FirstClaiming | Pods/PhoneNumberKit/PhoneNumberKit/PhoneNumberKit.swift:88-101 | the first region from the start index that claims the number (leading digits match at the start, or a known type with the leading zero, or a known type without it); none when no region claims it |
| PhoneKit.GetRegionCodeForNumber | Pods/PhoneNumberKit/PhoneNumberKit/PhoneNumberKit.swift:85-102 | the loop over the regions answers the code ID of the first claiming region, or nil |
| PhoneKit.RegionCodeSpec | Pods/PhoneNumberKit/PhoneNumberKit/PhoneNumberKit.swift:75-102 | the answer is always a territory with the number's country code: the only one when there is just one; otherwise the first that claims the number, nil exactly when none claims it |
| PhoneKit.RegionCodeForNumber | Pods/PhoneNumberKit/PhoneNumberKit/PhoneNumberKit.swift:75-83 | computes the reference region of the number |
| PhoneKit.NumberTypeSpec | Pods/PhoneNumberKit/PhoneNumberKit/PhoneNumberParser.swift:119-134 | a known type comes from a territory of the number's region whose general pattern matches the number, with or without its leading zero; the leading-zero form wins when its type is known |
| PhoneKit.CheckNumberType | Pods/PhoneNumberKit/PhoneNumberKit/PhoneNumberParser.swift:119-134 | computes the reference type: Unknown without a region or metadata, else the leading-zero type when known, else the plain type |
| PhoneKit.IsValidNumber | Pods/PhoneNumberKit/PhoneNumberKit/PhoneNumber.swift:34-38 | a number is valid iff its type is known |
| PartialFormatting.IsValidRawNumber | Pods/PhoneNumberKit/PhoneNumberKit/PartialFormatter.swift:136-151 | true iff the partial pattern compiles and matches somewhere and the valid-start pattern matches at position 0 |
| PartialFormatting.DefaultMetadataFor | Pods/PhoneNumberKit/PhoneNumberKit/PartialFormatter.swift:24-31 | nil iff no territory has the upper-cased region as id; otherwise a territory of the metadata with the region's country code |
| PartialFormatting.IsNanpaNumberWithNationalPrefix | Pods/PhoneNumberKit/PhoneNumberKit/PartialFormatter.swift:153-158 | true iff the current territory has code 1 and the number is "1" followed by a digit other than "0" and "1" (corrected; see Findings) |
| PartialFormatting.NanpaAsWrittenIgnoresSecondDigit | Pods/PhoneNumberKit/PhoneNumberKit/PartialFormatter.swift:157 | when the index prints as anything but "0" or "1", "10" in a code-1 territory counts as a NANPA number with national prefix as written; as intended it does not |
| PartialFormatting.NanpaAsWrittenNeverHolds | Pods/PhoneNumberKit/PhoneNumberKit/PartialFormatter.swift:157 | when the index prints as "0" or "1", no number counts as a NANPA number with national prefix as written, while "16502530000" does as intended |
| PartialFormatting.NanpaAsWrittenDisagrees | Pods/PhoneNumberKit/PhoneNumberKit/PartialFormatter.swift:157 | whatever text the index prints as, the test as written and the test as intended disagree on some number in a code-1 territory |
| PartialFormatting.ParsingPrefixLength | Pods/PhoneNumberKit/PhoneNumberKit/PartialFormatter.swift:203-211 | the length of the national prefix for parsing found at the start never exceeds the number |
| PartialFormatting.NationalPrefixSplit | Pods/PhoneNumberKit/PhoneNumberKit/PartialFormatter.swift:196-220 | a NANPA number gives up its leading "1", shown as "1 "; otherwise prefix part plus national number spell the number (corrected; see Findings) |
| PartialFormatting.NationalPrefixKeptAsWritten | Pods/PhoneNumberKit/PhoneNumberKit/PartialFormatter.swift:199-201 | for 16502530000 in a code-1 territory, with an index that does not print as "0" or "1", the "1" stays in the national number as written and is removed as intended |
| PartialFormatting.EligibleFormats | Pods/PhoneNumberKit/PhoneNumberKit/PartialFormatter.swift:160-172 | exactly the formats of the list whose rule the as-you-type pattern accepts |
| PartialFormatting.PossibleFormats | Pods/PhoneNumberKit/PhoneNumberKit/PartialFormatter.swift:251-265 | exactly the eligible formats whose last leading-digits pattern matches at the start, or whose pattern matches entirely when they have none |
| PartialFormatting.AvailableFormatsOf | Pods/PhoneNumberKit/PhoneNumberKit/PartialFormatter.swift:246-272 | nil iff there is no current metadata; only eligible formats of the territory; a non-fitting format is offered only when no eligible format fits |
| PartialFormatting.FirstApplicable | Pods/PhoneNumberKit/PhoneNumberKit/PartialFormatter.swift:276-297 | the first format with pattern and rule whose anchored pattern matches the number; none before it qualifies; none at all gives no position |
| PartialFormatting.GetFormattingTemplate | Pods/PhoneNumberKit/PhoneNumberKit/PartialFormatter.swift:336-352 | a template only when the pattern's first match in the longest number is at least as long as the number, and always then |
| PartialFormatting.FormattingTemplateOf | Pods/PhoneNumberKit/PhoneNumberKit/PartialFormatter.swift:303-334 | nil without pattern or rule and for a pattern with alternatives; a template is the one built from the simplified pattern |
| PartialFormatting.FirstTemplate | Pods/PhoneNumberKit/PhoneNumberKit/PartialFormatter.swift:101-106 | the first format that yields a template; none before it does; none at all gives no position |
| PartialFormatting.FilledUsesPlaceholders | Pods/PhoneNumberKit/PhoneNumberKit/PartialFormatter.swift:358-363 | the digits used are the template's placeholder count, capped at the number's length |
| PartialFormatting.FilledStopsWhenUsedUp | Pods/PhoneNumberKit/PhoneNumberKit/PartialFormatter.swift:366-368 | once every digit is used, the rest of the template adds nothing |
| PartialFormatting.FilledDigits | Pods/PhoneNumberKit/PhoneNumberKit/PartialFormatter.swift:357-370 | with a digit-free template the digits of the filled text are exactly the digits used, in order |
| PartialFormatting.TrimLeadingKeepsDigits | Pods/PhoneNumberKit/PhoneNumberKit/PartialFormatter.swift:376 | trimming leading white space keeps the digits |
| PartialFormatting.TrimTrailingKeepsDigits | Pods/PhoneNumberKit/PhoneNumberKit/PartialFormatter.swift:376 | trimming trailing white space keeps the digits |
| PartialFormatting.TrimKeepsDigits | Pods/PhoneNumberKit/PhoneNumberKit/PartialFormatter.swift:376 | trimming keeps the digits |
| PartialFormatting.TemplateKeepsDigits | Pods/PhoneNumberKit/PhoneNumberKit/PartialFormatter.swift:354-379 | for a number of digits and a digit-free template the digits of the result spell the number: none dropped, repeated or moved |
| PartialFormatting.EmptyNumberFillsNothing | Pods/PhoneNumberKit/PhoneNumberKit/PartialFormatter.swift:359-368 | an empty number fills every template with nothing |
| PartialFormatting.ApplyFormattingTemplate | Pods/PhoneNumberKit/PhoneNumberKit/PartialFormatter.swift:354-379 | the loop builds the filled template plus the unused digits, trimmed |
| PartialFormatting.Assembled | Pods/PhoneNumberKit/PhoneNumberKit/PartialFormatter.swift:109-121 | the joined text, or that text without one trailing separator |
| PartialFormatting.AssembledSpec | Pods/PhoneNumberKit/PhoneNumberKit/PartialFormatter.swift:109-121 | the result starts with the prefix, has the separator right after it exactly when asked for and missing, and ends without a separator unless the joined text ended with two |
| PartialFormatting.PartialFormatter.AssembleFinalNumber | Pods/PhoneNumberKit/PhoneNumberKit/PartialFormatter.swift:109-121 | the step-by-step assembly gives the assembled text |
| PartialFormatting.PartialFormatter.constructor | Pods/PhoneNumberKit/PhoneNumberKit/PartialFormatter.swift:68-72 | the default and current metadata are the region's main territory; empty prefix; no extra space; the given withPrefix |
| PartialFormatting.PartialFormatter.CurrentRegion | Pods/PhoneNumberKit/PhoneNumberKit/PartialFormatter.swift:42-46 | the current metadata's code ID, else the default region |
| PartialFormatting.PartialFormatter.UpdateMetadataForDefaultRegion | Pods/PhoneNumberKit/PhoneNumberKit/PartialFormatter.swift:24-31 | default and current metadata become the region's main territory; the prefix state is unchanged |
| PartialFormatting.PartialFormatter.SetDefaultRegion | Pods/PhoneNumberKit/PhoneNumberKit/PartialFormatter.swift:18-22 | setting the region recomputes the metadata, so the current region is the code ID of the region's main territory, or the region itself |
| PartialFormatting.PartialFormatter.ResetVariables | Pods/PhoneNumberKit/PhoneNumberKit/PartialFormatter.swift:128-132 | current metadata back to the default, empty prefix, no extra space; nothing else changes |
| PartialFormatting.PartialFormatter.IddLength | Pods/PhoneNumberKit/PhoneNumberKit/PartialFormatter.swift:179-183 | a found international prefix is never longer than the number and needs metadata with an international prefix |
| PartialFormatting.PartialFormatter.ExtractIDD | Pods/PhoneNumberKit/PhoneNumberKit/PartialFormatter.swift:176-194 | a matched international prefix becomes the prefix and is cut off the number; otherwise number and prefix are unchanged |
| PartialFormatting.PartialFormatter.ExtractNationalPrefix | Pods/PhoneNumberKit/PhoneNumberKit/PartialFormatter.swift:196-220 | the prefix grows by the national-prefix split's first part and the number left is its second (corrected; see Findings) |
| PartialFormatting.PartialFormatter.SeparatedPrefix | Pods/PhoneNumberKit/PhoneNumberKit/PartialFormatter.swift:228-230 | a non-empty prefix not starting with "+" gets a separator; any other prefix is kept |
| PartialFormatting.PartialFormatter.ExtractCountryCallingCode | Pods/PhoneNumberKit/PhoneNumberKit/PartialFormatter.swift:222-244 | an empty number changes nothing; a known code moves with a space into the prefix and selects its main territory; otherwise the number is kept and, without prefix mode and with an empty prefix, the optional code's description is written |
| PartialFormatting.PartialFormatter.AvailableFormats | Pods/PhoneNumberKit/PhoneNumberKit/PartialFormatter.swift:246-272 | the one-pass loop answers the available formats of the current metadata |
| PartialFormatting.PartialFormatter.ApplyFormat | Pods/PhoneNumberKit/PhoneNumberKit/PartialFormatter.swift:275-299 | nil iff no format applies; otherwise the first applicable format's replacement, with a space requested when its national prefix rule has a separator |
| PartialFormatting.PartialFormatter.CreateFormattingTemplate | Pods/PhoneNumberKit/PhoneNumberKit/PartialFormatter.swift:303-334 | the format's template for the number; a space is requested only when a template is found and the rule has a separator |
| PartialFormatting.PartialFormatter.FormatWithTemplate | Pods/PhoneNumberKit/PhoneNumberKit/PartialFormatter.swift:100-107 | the number laid out by the template of the first format that has one; unchanged when none has |
| PartialFormatting.PartialFormatter.FormatPartial | Pods/PhoneNumberKit/PhoneNumberKit/PartialFormatter.swift:81-124 | the result is PartialFormatOf of the input: invalid input comes back unchanged; otherwise the IDD, country-code and national-prefix extractions give the prefix and metadata left in the state, the national number is laid out by the first applicable format or the first template, and the two are assembled (corrected; see Findings) |
| PartialFormatting.PartialFormatter.LayOut | Pods/PhoneNumberKit/PhoneNumberKit/PartialFormatter.swift:96-108 | on the reset space flag the national number and the flag become NationalLayout of the number: the first applicable format, else the first template, else the number unchanged |
| PartialFormatting.IddSplit | Pods/PhoneNumberKit/PhoneNumberKit/PartialFormatter.swift:88-90 | without a matched international prefix the prefix is empty and the national number is the digits of the input; with one, the prefix is the matched text and the national number the digits after it |
| PartialFormatting.CallingCodeSplitDigits | Pods/PhoneNumberKit/PhoneNumberKit/PartialFormatter.swift:222-244 | what the country calling code leaves of a number of digits is digits again |
| PartialFormatting.PrefixSplitDigits | Pods/PhoneNumberKit/PhoneNumberKit/PartialFormatter.swift:88-94 | the national number formatPartial lays out holds digits only |
| PartialFormatting.AssembledDigits | Pods/PhoneNumberKit/PhoneNumberKit/PartialFormatter.swift:109-121 | the digits of the assembled text are those of the prefix followed by those of the national number |
| PartialFormatting.NationalLayoutKeepsDigits | Pods/PhoneNumberKit/PhoneNumberKit/PartialFormatter.swift:96-108 | when no format applies and the template (if any) holds no digits of its own, the layout of a digit string has exactly that string as its digits, and without a template it is the string itself |
| PartialFormatting.PartialFormatKeepsDigits | Pods/PhoneNumberKit/PhoneNumberKit/PartialFormatter.swift:81-124 | for valid input laid out without a format replacement, the digits of the result are the prefix's digits followed by the national number, which holds the digits that followed the prefix |
| PhoneTextField.Occurrences | Pods/PhoneNumberKit/PhoneNumberKit/TextField.swift:131-136 | the count of a character never exceeds the length of the text |
| PhoneTextField.OccurrencesAppend | Pods/PhoneNumberKit/PhoneNumberKit/TextField.swift:131-136 | counts over a concatenation add up |
| PhoneTextField.FirstNumericFrom | Pods/PhoneNumberKit/PhoneNumberKit/TextField.swift:127-130 | the first position at or after the start holding a digit or plus sign; everything before it is non-numeric; none means no such position exists |
| PhoneTextField.CursorPositionOf | Pods/PhoneNumberKit/PhoneNumberKit/TextField.swift:118-141 | nil without text or selection, and iff nothing numeric lies at or after the cursor; otherwise the first numeric character after the cursor and its count from there to the end, at least 1 |
| PhoneTextField.ExtractCursorPosition | Pods/PhoneNumberKit/PhoneNumberKit/TextField.swift:118-141 | the two nested loops answer the cursor position described above |
| PhoneTextField.NthFromEnd | Pods/PhoneNumberKit/PhoneNumberKit/TextField.swift:151-160 | a found position holds the character and has exactly the wanted count of it from there to the end; none found means no such position below the bound |
| PhoneTextField.NthFromEndExists | Pods/PhoneNumberKit/PhoneNumberKit/TextField.swift:151-160 | for a positive count such a position exists iff the text holds the character at least that many times |
| PhoneTextField.SelectionFor | Pods/PhoneNumberKit/PhoneNumberKit/TextField.swift:144-163 | a selection lies inside the text; none without a remembered position; for a remembered count it is nil iff the new text holds the character fewer times |
| PhoneTextField.SelectionRangeForNumberReplacement | Pods/PhoneNumberKit/PhoneNumberKit/TextField.swift:144-163 | the right-to-left scan answers that selection |
| PhoneTextField.Replaced | Pods/PhoneNumberKit/PhoneNumberKit/TextField.swift:177 | the text before the range, then the replacement, then the text after the range |
| PhoneTextField.PhoneNumberTextField.constructor | Pods/PhoneNumberKit/PhoneNumberKit/TextField.swift:82-104 | an empty field with the phone keyboard, prefix mode and a formatter for the default region |
| PhoneTextField.PhoneNumberTextField.CurrentRegion | Pods/PhoneNumberKit/PhoneNumberKit/TextField.swift:56-60 | the formatter's current region |
| PhoneTextField.PhoneNumberTextField.SetDefaultRegion | Pods/PhoneNumberKit/PhoneNumberKit/TextField.swift:16-20 | the formatter takes the region and recomputes its metadata; the text and cursor are unchanged |
| PhoneTextField.PhoneNumberTextField.SetWithPrefix | Pods/PhoneNumberKit/PhoneNumberKit/TextField.swift:22-32 | the formatter follows; number pad without the prefix, phone pad with it |
| PhoneTextField.PhoneNumberTextField.ShouldChangeCharacters | Pods/PhoneNumberKit/PhoneNumberKit/TextField.swift:165-198 | always false; no text or a refusing delegate changes nothing; otherwise the text is PartialFormatOf the edited text (the edited text itself when one non-numeric character is deleted, and whenever it is not a valid partial number) and the cursor stands before the remembered digit occurrence, or at the end |
| PhoneTextField.PhoneNumberTextField.ApplyEdit | Pods/PhoneNumberKit/PhoneNumberKit/TextField.swift:175-195 | the shown text is PartialFormatOf the edited text, or the edited text itself after deleting one non-numeric character or when it is not a valid partial number; the cursor is placed as above |
| PhoneTextField.PhoneNumberTextField.ShowEdit | Pods/PhoneNumberKit/PhoneNumberKit/TextField.swift:184-195 | the field shows the new text with the cursor at the remembered digit's selection, or at the end when there is none |

## Left out

- UIKit: cells and their setup closures, `updateCell`, `reload`, `select`/`deselect`, `reloadComponent`/`selectRow` of the pickers, and the input accessory view's buttons beyond their enabled state. The model keeps only what the form state records. `Row.GetCell` counts cell setups. The phone text field's `sendActionsForControlEvents(.EditingChanged)` after an edit (`Pods/PhoneNumberKit/PhoneNumberKit/TextField.swift:191`) is a UIKit event, and is not modelled.
- The KVO wrappers that turn list mutations into delegate callbacks (`Source/Core/Form.swift:218-255`, `Source/Core/Section.swift:40-94`). The model changes the lists directly. The only delegate call it records is `rowValueHasBeenChanged`, as the form's `valueChanges` log.
- The order of callbacks (`onChange`, `onExpandInlineRow`, `onCollapseInlineRow`, cell setup). These closures are not modelled.
- `NSPredicate` evaluation, `predicateVars` scraping and regular-expression matching: these are foreign code. Conditions carry their evaluation and their variables, and regex engines are `Engine` parameters.
- Floating-point rows and formatters (slider, stepper, decimal and currency formatters, dates): they are outside the modelled core.
- Concurrency: PhoneNumberKit's `ParseManager`, `parseMultiple` and `ParseOperation`.
- I/O and platform calls: `Metadata.populateItems` reads a JSON file, so the decoded JSON is a parameter. `defaultRegionCode` asks CoreTelephony and the locale, so the region is a parameter.
- `Form.hideInlineRows` (`Source/Core/Form.swift:131-137`): not modelled. The collapse it would call on every row is modelled one row at a time as `InlineRows.CollapseInlineRow`.
- Forms.Section.HideRow: does not collapse an inline row that is hidden. The collapse is `InlineRows.CollapseInlineRow` on its own. Chaining it here would make hiding recursive through the form's frames.
- Forms.Row.WillBeRemovedFromForm: does not collapse the row's inline row first, for the same reason.
- InlineRows.CollapseInlineRow: requires that a row below the expanded row exists. The source removes the row at `indexPath.row + 1` and traps when there is none.
- InlineRows.CollapseOthers: passes over a row whose collapse would trap, an expanded row that is the last visible row of its section, and counts it as settled. The source traps there, as for `InlineRows.CollapseInlineRow`.
- InlineRows.ExpandInForm: with `.AnotherInlineRowIsShown` in effect, the section lists after the collapses are stated only as every other inline row being settled, not list by list.
- InlineRows.ExpandInlineRow: the same holds with `.AnotherInlineRowIsShown`; without it the section lists are stated exactly.
- InlineRows.ToggleInlineRow: its expanding branch has the same gap as `InlineRows.ExpandInlineRow` with `.AnotherInlineRowIsShown`.
- Characters are modelled as ASCII code units, one list element each. Swift counts grapheme clusters (`characters.count`), NSString counts UTF-16 units, and `decimalDigitCharacterSet` and `uppercaseString` cover all of Unicode. This affects the lengths of `Validation.LengthSpec`, the ranges of `PhoneRegex.Substring` and `PhoneParser.ExtractPotentialCountryCode`, the caret offsets of `PhoneFormatting.NewPosition`, the cursor of `PhoneTextField`, and the digit tests of `PhoneFormatting.Digits`, `PhoneFormatting.GetObjectValue` and `PhoneTextField.IsNonNumeric`.
- PhoneRegex.UpperCase: upper-cases ASCII letters only, one character for one; Unicode upper-casing, which can lengthen a string ("ß" becomes "SS"), is not modelled.
- InlineRows.ExpandInlineRow: the inline row's `onChange` copy-back to its parent and `setupInlineRow` are closures, and are not modelled.
- Pickers.DoublePickerRow.DidSelectRow: requires the selected index to name an offered option, the `CanSelect` precondition. The source indexes the option arrays and traps otherwise. The same holds for `Pickers.TriplePickerRow.DidSelectRow` and the selection functions.
- ImageRows.ImageRow.CustomDidSelect: presenting the picker (`displayImagePickerController`), `prepareForSegue`, `customUpdateCell` and the alert's styling are UI, and are not modelled.
- Selection.Tap: a section's visible rows are modelled as an array of `Choice` values. The in-place update of the row objects and their cells is not modelled.
- Navigation.NextRowForRow: the navigation options and `keyboardReturnType` configurations are parameters, because they are properties of the view controller and of the row.
- RowValues.SetValues: the dictionary is given as a sequence of distinct keys, because Swift does not fix a dictionary's iteration order. The contract states each named row's new value and that every other row keeps its value. It does not restate the value table and the hidden/disabled state after each pass; `RowValues.SetValue` states those for each assignment.
- RowValues.SetValue: requires every observer of the row's tag to be a row or section of the same form whose lists are consistent (`Ready`). The source relies on this without checking it. `SetValueAt` and `SetValues` require the same for the whole form (`RegistryOwned`, `AllReady`).
- Forms.Form.AppendContentsOf: states the new sections, the visible sections and the registry of row tags. It does not restate the value table and observer table; `Forms.Form.Append` states them for one section.
- Forms.Form.ReplaceRange: states the sections, the detached sections and the registry. It does not restate the value and observer tables.
- Operators.SectionAddAll: states the section's rows. The form-side registration is stated by `Forms.Section.AppendContentsOf`, which it calls.
- Operators.FormPlusSection: states the sections and the registry. The value and observer tables are stated by `Forms.Form.Append`.
- The `Distinct` and `FreshIn` preconditions of the list operations: the source asserts duplicate tags away (`assert(... == nil, "Duplicate tag")`) and never appends a row or section twice. The model requires both.
- Row and section tags are constants. The source never retags a row once it is in a form in the modelled operations.
- ResultBuilders.BuildExpressionTag: the row made from a string is a text row. The concrete row type of the source's builder is not modelled.
- The doc comment of `+++=` with a row (`Source/Core/Operators.swift:40-45`) says the row is appended to the last section. The code appends a new section holding the row, and the model follows the code (`Operators.FormPlusRow`).
- PhoneNumberKit's full `parse` pipeline, `isValidNumber` of the text field, and the text field's forwarding of the other `UITextFieldDelegate` methods (`TextField.swift:202-224`): they depend on the whole parser, on UIKit, or on both.
- Validation's `Ida*` validators, with their weak-reference listener lists, and `DictionaryMessage.concatenatedMessage`, whose output order depends on dictionary iteration order.

## Findings

| source | as written | input that shows it | evidently intended | confidence | as-written member | corrected member |
|---|---|---|---|---|---|---|
| Source/Core/Form.swift:277-282 | `removeRowObservers` removes the observer from `var arr`, a local copy that is never stored back, so the table keeps every observer | any observer registered under a tag, then removed | the observer is removed from the stored lists | not executed | Observers.RemoveAllAsWrittenIsIdentity | Observers.RemoveAllObservers |
| Pods/PhoneNumberKit/PhoneNumberKit/PartialFormatter.swift:157 | the second-digit test compares `String(startIndex.advancedBy(1))`, the text of an index, with "0" and "1", so the character at the index plays no part; the model takes that text as a parameter, since how the runtime prints an index is not part of this model | "10" in a territory with country code 1 when the index prints as anything but "0" or "1"; "16502530000" when it prints as "0" or "1" | a number whose second digit is 0 or 1 is not a NANPA number with national prefix, and one whose second digit is 2-9 is | not executed | PartialFormatting.NanpaAsWrittenDisagrees | PartialFormatting.IsNanpaNumberWithNationalPrefix |
| Pods/PhoneNumberKit/PhoneNumberKit/PartialFormatter.swift:199-201 | for a NANPA number "1 " becomes the prefix, but `startOfNationalNumber` stays 0, so the "1" also stays in the national number | "16502530000" in a territory with country code 1, when the index of the NANPA test does not print as "0" or "1" | the national number starts after the leading "1" | not executed | PartialFormatting.NationalPrefixKeptAsWritten | PartialFormatting.NationalPrefixSplit |
| Pods/PhoneNumberKit/PhoneNumberKit/PhoneNumberParser.swift:91-106 | after a leading "+" the national number is taken from index `i`, which still includes the code's last digit, and the loop runs one length past the end | "+1234" with country code 1 known | the national number is the digits after the code, and no length reads past the end | not executed | PhoneParser.AsWrittenKeepsCodeDigit | PhoneParser.ExtractPotentialCountryCode |
