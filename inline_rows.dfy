/**
 * Inline rows (`InlineRowType`): a row that, when expanded, shows a second row right below
 * it in its section, and removes it again when collapsed. Inserting and removing go through
 * the section's `replaceRange`, as `insert(_:atIndex:)` and `removeAtIndex` of a
 * `RangeReplaceableCollectionType` do.
 */
module InlineRows {
  import opened Wrappers
  import opened Sequences
  import opened Visibility
  import opened Forms
  import opened Options

  /** The guard of `collapseInlineRow`: the row has an inline row and an index path. */
  predicate Collapses(row: Row)
    reads row, row.section, if row.section == null then null else row.section.form
  {
    row.inlineRow != null && row.IndexPath().Some?
  }

  /** The visible row just below `row` when it collapses. */
  function BelowRow(row: Row): (r: Row)
    requires Collapses(row) && row.IndexPath().value.1 + 1 < |row.section.rows|
    reads row, row.section, row.section.form
    ensures r in row.section.rows
  {
    row.section.rows[row.IndexPath().value.1 + 1]
  }

  /** The section's lists are kept, and the section's rows point back to it in its form. */
  ghost predicate Placed(row: Row)
    reads row, row.section, if row.section == null then {} else set r | r in row.section.allRows
  {
    row.section != null ==>
      && row.section.Valid()
      && forall j :: 0 <= j < |row.section.allRows| ==> row.section.allRows[j].section == row.section
  }

  /**
   * `collapseInlineRow`: with an inline row and an index path, the row just below the row
   * leaves the section (and the form's registry), and the row forgets its inline row;
   * otherwise nothing happens. The source indexes past the visible rows when the row is
   * the last one, which traps; that is excluded here.
   */
  method CollapseInlineRow(row: Row)
    requires Placed(row)
    requires Collapses(row) ==> row.IndexPath().value.1 + 1 < |row.section.rows|
    modifies row`inlineRow, row.section, row.FormOf()
    ensures row.section == old(row.section) && Placed(row)
    ensures row.section != null ==> row.section.form == old(row.section.form)
    ensures row.FormOf() != null ==> FormKeptButRegistry(row.FormOf())
    ensures !old(Collapses(row)) ==>
      && row.inlineRow == old(row.inlineRow)
      && (row.section != null ==> row.section.rows == old(row.section.rows) && row.section.allRows == old(row.section.allRows))
    ensures !old(Collapses(row)) && row.FormOf() != null ==>
      row.FormOf().rowsByTag == old(row.FormOf().rowsByTag) && row.FormOf().tagToValues == old(row.FormOf().tagToValues)
    ensures old(Collapses(row)) ==> var i, gone := old(row.IndexPath().value.1), old(BelowRow(row));
      && row.inlineRow == null
      && row.section.rows == old(row.section.rows)[..i + 1] + old(row.section.rows)[i + 2..]
      && row.section.allRows == Except(old(row.section.allRows), [gone])
      && row.FormOf().rowsByTag == old(row.FormOf().rowsByTag) - TagsOf([gone])
      && row.FormOf().tagToValues == old(row.FormOf().tagToValues) - TagsOf([gone])
  {
    var p := row.IndexPath();
    if p.Some? && row.inlineRow != null {
      RemoveInline(row.section, p.value.1 + 1);
      row.inlineRow := null;
    }
  }

  /**
   * `section.removeAtIndex(m)`: `replaceRange(m..<m + 1, with: [])`, which takes the visible
   * row at `m` out of the form and out of all rows; with no new rows, nothing is added back.
   */
  method RemoveInline(s: Section, m: nat)
    requires s.Valid() && s.form != null && m < |s.rows| && PointBack(s.allRows, s)
    modifies s`allRows, s`rows, s.form
    ensures s.form == old(s.form) && s.Valid() && FormKeptButRegistry(s.form)
    ensures s.rows == old(s.rows)[..m] + old(s.rows)[m + 1..]
    ensures s.allRows == Except(old(s.allRows), [old(s.rows)[m]])
    ensures s.form.rowsByTag == old(s.form.rowsByTag) - TagsOf([old(s.rows)[m]])
    ensures s.form.tagToValues == old(s.form.tagToValues) - TagsOf([old(s.rows)[m]])
    ensures PointBack(s.allRows, s)
  {
    ghost var rows0, all0 := s.rows, s.allRows;
    assert rows0[m] in all0;
    OneRow(rows0, m);
    s.RemoveRowsInRange(m, m + 1);
    assert s.form.rowsByTag == old(s.form.rowsByTag) - TagsOf([rows0[m]]);
    assert s.form.tagToValues == old(s.form.tagToValues) - TagsOf([rows0[m]]);
    SpliceOut(s, m, rows0, all0);
  }

  /** The list half of `RemoveInline`, once the row at `m` of `rows0` is out of all rows `all0`. */
  method SpliceOut(s: Section, m: nat, ghost rows0: seq<Row>, ghost all0: seq<Row>)
    requires m < |rows0| && s.rows == rows0 && s.allRows == Except(all0, rows0[m..m + 1])
    requires Distinct(all0) && Subsequence(rows0, all0) && PointBack(all0, s)
    modifies s`rows, s`allRows
    ensures s.Valid() && s.rows == rows0[..m] + rows0[m + 1..]
    ensures s.allRows == Except(all0, [rows0[m]]) && PointBack(s.allRows, s)
  {
    SubsequenceIsDistinct(rows0, all0);
    s.SpliceRows(m, m + 1, [], rows0, all0);
    NothingBetween(rows0[..m], rows0[m + 1..]);
    OneRow(rows0, m);
    SplicingNothing(rows0, all0, m, m + 1);
    PointBackWithin(s.allRows, all0, s);
  }

  lemma OneRow<T>(s: seq<T>, m: nat)
    requires m < |s|
    ensures s[m..m + 1] == [s[m]]
  {
  }

  lemma NothingBetween<T>(a: seq<T>, b: seq<T>)
    ensures a + [] + b == a + b
  {
  }

  /** An item of `s` with `x` spliced in at `m`, other than `x`, is an item of `s`. */
  lemma InSplice<T>(s: seq<T>, m: nat, x: T, q: T)
    requires m <= |s| && q in s[..m] + [x] + s[m..] && q != x
    ensures q in s
  {
    assert s == s[..m] + s[m..];
  }

  /** Splicing in before the last item keeps it last. */
  lemma LastAfterSplice<T>(s: seq<T>, m: nat, x: T)
    requires m < |s|
    ensures var t := s[..m] + [x] + s[m..]; t[|t| - 1] == s[|s| - 1]
  {
  }

  /** Splicing `x` into `s` at `m` adds `x` and nothing else. */
  lemma SpliceMembers<T>(s: seq<T>, m: nat, x: T)
    requires m <= |s|
    ensures forall q :: q in s[..m] + [x] + s[m..] ==> q in s || q == x
  {
    forall q | q in s[..m] + [x] + s[m..] && q != x ensures q in s {
      InSplice(s, m, x, q);
    }
  }

  /** Every row of `rs` belongs to section `s`. */
  ghost predicate PointBack(rs: seq<Row>, s: Section)
    reads rs
  {
    forall j :: 0 <= j < |rs| ==> rs[j].section == s
  }

  /** Rows drawn from rows that belong to `s` belong to `s`. */
  lemma PointBackWithin(sub: seq<Row>, all: seq<Row>, s: Section)
    requires PointBack(all, s) && forall x :: x in sub ==> x in all
    ensures PointBack(sub, s)
  {
    forall j | 0 <= j < |sub| ensures sub[j].section == s {
      assert sub[j] in all;
      var k :| 0 <= k < |all| && all[k] == sub[j];
    }
  }

  /** Replacing a range by no rows only deletes the range from all rows. */
  lemma SplicingNothing<T>(visible: seq<T>, all: seq<T>, start: nat, end: nat)
    requires start <= end <= |visible|
    ensures ReplaceAll(visible, all, start, end, []) == Except(all, visible[start..end])
  {
    var rest := Except(all, visible[start..end]);
    var idx := InsertionIndex(ReplaceVisible(visible, start, end, []), rest, start);
    assert InsertAllAt(rest, idx, []) == rest;
  }

  /**
   * A row of a form whose visible sections are `sections` is settled when collapsing it
   * leaves nothing expanded: it has no inline row, no index path, or it is the last visible
   * row of its section, where the source would trap instead.
   */
  predicate Settled(row: Row, sections: seq<Section>)
    reads row, row.section
  {
    row.inlineRow != null && row.section != null && row.section in sections && row in row.section.rows ==>
      row.section.rows[|row.section.rows| - 1] == row
  }

  /** The sections of `f` keep their lists and their rows point back to them. */
  ghost predicate InlineReady(f: Form)
    reads f, f.allSections, set k, j | 0 <= k < |f.allSections| && 0 <= j < |f.allSections[k].allRows| :: f.allSections[k].allRows[j]
  {
    forall k :: 0 <= k < |f.allSections| ==> f.allSections[k].Valid() && Attached(f, f.allSections[k])
  }

  /** Dropping position `m` keeps the last element last, unless it is the one dropped. */
  lemma LastStaysLast(rows: seq<Row>, m: nat, r: Row)
    requires Distinct(rows) && m < |rows| && rows[|rows| - 1] == r
    ensures var rest := rows[..m] + rows[m + 1..]; r in rest ==> rest[|rest| - 1] == r
  {
    var rest := rows[..m] + rows[m + 1..];
    if m == |rows| - 1 {
      assert rest == rows[..m];
      assert r !in rest;
    } else {
      assert rest[|rest| - 1] == r;
    }
  }

  /**
   * The loop of `expandInlineRow` over `form.allRows`, taken before the loop starts: every
   * inline row type among them is collapsed. A row whose collapse would trap is passed over.
   * Afterwards every inline row type of the list is settled, and no row gained an inline row.
   */
  method CollapseOthers(f: Form, snap: seq<Row>)
    requires InlineReady(f)
    requires forall k :: 0 <= k < |snap| ==> snap[k].section in f.allSections
    modifies snap`inlineRow, f.allSections, f
    ensures InlineReady(f) && FormKeptButRegistry(f)
    ensures forall k :: 0 <= k < |snap| ==> snap[k].section in f.allSections
    ensures forall k :: 0 <= k < |snap| && snap[k].isInlineRowType ==> Settled(snap[k], f.sections)
    ensures forall k :: 0 <= k < |snap| ==> snap[k].inlineRow == null || snap[k].inlineRow == old(snap[k].inlineRow)
  {
    for i := 0 to |snap|
      invariant InlineReady(f) && FormKeptButRegistry(f)
      invariant forall k :: 0 <= k < |snap| ==> snap[k].section in f.allSections
      invariant forall k :: 0 <= k < i && snap[k].isInlineRowType ==> Settled(snap[k], f.sections)
      invariant forall k :: 0 <= k < |snap| ==> snap[k].inlineRow == null || snap[k].inlineRow == old(snap[k].inlineRow)
    {
      if snap[i].isInlineRowType {
        CollapsePass(f, snap, i, snap[i]);
      }
    }
  }

  /**
   * One pass of `CollapseOthers`, in the terms of its loop: row `i` collapses, or is passed
   * over where its collapse would trap, and the rows before `i` and row `i` end settled.
   */
  method CollapsePass(f: Form, snap: seq<Row>, i: nat, r: Row)
    requires i < |snap| && r == snap[i] && InlineReady(f)
    requires forall k :: 0 <= k < |snap| ==> snap[k].section in f.allSections
    requires forall k :: 0 <= k < i && snap[k].isInlineRowType ==> Settled(snap[k], f.sections)
    modifies r`inlineRow, r.section, f
    ensures InlineReady(f) && FormKeptButRegistry(f)
    ensures forall k :: 0 <= k < |snap| ==> snap[k].section in f.allSections
    ensures forall k :: 0 <= k <= i && snap[k].isInlineRowType ==> Settled(snap[k], f.sections)
    ensures forall k :: 0 <= k < |snap| ==> snap[k].inlineRow == null || snap[k].inlineRow == old(snap[k].inlineRow)
  {
    var p := r.IndexPath();
    if !(p.Some? && r.inlineRow != null && p.value.1 + 1 >= |r.section.rows|) {
      CollapseStep(f, snap, i, r, f.sections);
    }
  }

  /** One pass of `CollapseOthers`: row `i` collapses, and the rows settled before stay settled. */
  method CollapseStep(f: Form, snap: seq<Row>, i: nat, r: Row, ghost sections: seq<Section>)
    requires i < |snap| && r == snap[i] && InlineReady(f) && sections == f.sections
    requires forall k :: 0 <= k < |snap| ==> snap[k].section in f.allSections
    requires Collapses(snap[i]) ==> snap[i].IndexPath().value.1 + 1 < |snap[i].section.rows|
    modifies r`inlineRow, r.section, f
    ensures InlineReady(f) && FormKeptButRegistry(f)
    ensures forall k :: 0 <= k < |snap| ==> snap[k].section in f.allSections
    ensures forall k :: 0 <= k < |snap| ==> snap[k].inlineRow == null || snap[k].inlineRow == old(snap[k].inlineRow)
    ensures r.isInlineRowType ==> Settled(r, sections)
    ensures forall k :: 0 <= k < i && snap[k].section != r.section && old(Settled(snap[k], sections)) ==> Settled(snap[k], sections)
    ensures forall k :: 0 <= k < i && snap[k] != r && snap[k].section == r.section && old(Settled(snap[k], sections)) ==> Settled(snap[k], sections)
  {
    var s := r.section;
    ghost var rows0 := s.rows;
    ghost var collapses := Collapses(r);
    ghost var m := if collapses then r.IndexPath().value.1 + 1 else 0;
    ghost var k0 :| 0 <= k0 < |f.allSections| && f.allSections[k0] == s;
    ghost var all0 := s.allRows;
    CollapseInForm(f, r);
    assert collapses ==> r.inlineRow == null;
    forall k | 0 <= k < i && snap[k] != r && snap[k].section == s && old(Settled(snap[k], sections))
      ensures Settled(snap[k], sections)
    {
      var q := snap[k];
      if q.inlineRow != null && s in sections && q in s.rows {
        assert old(q.inlineRow) != null && old(q.section) == s;
        assert old(f.allSections[k0].Valid());
        SubsequenceIsDistinct(rows0, all0);
        LastKept(rows0, s.rows, collapses, m, q, true);
      }
    }
  }

  /** Dropping the row at `m` (when `dropped`) keeps a last row last, if it is still there. */
  lemma LastKept(rows0: seq<Row>, rows1: seq<Row>, dropped: bool, m: nat, q: Row, live: bool)
    requires Distinct(rows0)
    requires dropped ==> m < |rows0| && rows1 == rows0[..m] + rows0[m + 1..]
    requires !dropped ==> rows1 == rows0
    requires live && q in rows0 ==> rows0[|rows0| - 1] == q
    ensures live && q in rows1 ==> rows1[|rows1| - 1] == q
  {
    if dropped && live && q in rows1 {
      assert q in rows0;
      LastStaysLast(rows0, m, q);
    }
  }

  /** `CollapseInlineRow` inside a ready form: the form stays ready. */
  method CollapseInForm(f: Form, r: Row)
    requires InlineReady(f) && r.section in f.allSections
    requires Collapses(r) ==> r.IndexPath().value.1 + 1 < |r.section.rows|
    modifies r`inlineRow, r.section, f
    ensures InlineReady(f) && FormKeptButRegistry(f) && r.section == old(r.section)
    ensures r.inlineRow == null || r.inlineRow == old(r.inlineRow)
    ensures !old(Collapses(r)) ==> r.inlineRow == old(r.inlineRow) && r.section.rows == old(r.section.rows)
    ensures old(Collapses(r)) ==> var m := old(r.IndexPath().value.1) + 1;
      r.inlineRow == null && r.section.rows == old(r.section.rows)[..m] + old(r.section.rows)[m + 1..]
  {
    var s := r.section;
    ghost var sections := f.allSections;
    ghost var k0 := IndexOf(sections, s);
    assert sections[k0].Valid() && Attached(f, sections[k0]);
    CollapseInlineRow(r);
    forall k | 0 <= k < |sections| ensures sections[k].Valid() && Attached(f, sections[k]) {
      if sections[k] != s {
        assert old(sections[k].Valid() && Attached(f, sections[k]));
      }
    }
  }

  /** `section.insert(inline, atIndex: i)`: the row goes into the visible rows at `i`. */
  method InsertInline(s: Section, i: nat, inline: Row)
    requires s.Valid() && s.form != null && PointBack(s.allRows, s) && i <= |s.rows|
    requires inline.section == null && inline.tag == None && inline.hidden == None
    modifies s, s.form, inline`section, inline`hiddenCache, inline`disabledCache, inline`isFirstResponder
    ensures s.form == old(s.form) && s.Valid() && FormKeptButRegistry(s.form)
    ensures s.rows == old(s.rows)[..i] + [inline] + old(s.rows)[i..]
    ensures PointBack(s.allRows, s)
  {
    ghost var rows0, all0 := s.rows, s.allRows;
    assert inline !in all0;
    InsertOne(s, i, inline, rows0, all0);
    InsertedMembers(rows0, all0, i, inline);
    PointBackWithinPlus(s.allRows, all0, inline, s);
  }

  /** The list half of `InsertInline`: `replaceRange(i..<i, with: [inline])`. */
  method InsertOne(s: Section, i: nat, inline: Row, ghost rows0: seq<Row>, ghost all0: seq<Row>)
    requires s.Valid() && s.form != null && s.rows == rows0 && s.allRows == all0 && i <= |rows0|
    requires inline !in all0 && inline.tag == None && inline.hidden == None
    modifies s, s.form, inline`section, inline`hiddenCache, inline`disabledCache, inline`isFirstResponder
    ensures s.form == old(s.form) && s.Valid() && FormKeptButRegistry(s.form)
    ensures s.rows == rows0[..i] + [inline] + rows0[i..]
    ensures s.allRows == ReplaceAll(rows0, all0, i, i, [inline]) && inline.section == s
  {
    EmptySlice(rows0, i);
    ExceptNothing(all0);
    SubsequenceIsDistinct(rows0, all0);
    // `replaceRange` over an empty range removes nothing: only its insertion half acts.
    s.InsertRowsInRange(i, i, [inline], rows0, all0);
    StayingOne(s.form, inline);
  }

  /** `InsertInline` inside a ready form: the form stays ready. */
  method InsertInForm(s: Section, i: nat, inline: Row)
    requires s.form != null && InlineReady(s.form) && s in s.form.allSections && i <= |s.rows|
    requires inline.section == null && inline.tag == None && inline.hidden == None
    modifies s, s.form, inline`section, inline`hiddenCache, inline`disabledCache, inline`isFirstResponder
    ensures s.form == old(s.form) && InlineReady(s.form) && FormKeptButRegistry(s.form)
    ensures s.rows == old(s.rows)[..i] + [inline] + old(s.rows)[i..]
  {
    ghost var f := s.form;
    ghost var sections := f.allSections;
    ghost var k0 := IndexOf(sections, s);
    assert sections[k0].Valid() && Attached(f, sections[k0]);
    InsertInline(s, i, inline);
    assert f.allSections == sections;
    forall k | 0 <= k < |sections| ensures sections[k].Valid() && Attached(f, sections[k]) {
      var t := sections[k];
      if t != s {
        assert old(t.Valid() && Attached(f, t));
        assert inline !in t.allRows;
      }
    }
  }

  lemma EmptySlice<T>(s: seq<T>, i: nat)
    requires i <= |s|
    ensures s[i..i] == []
  {
  }

  /** A row that stays visible is all that `Staying` keeps of it. */
  lemma StayingOne(f: Form?, r: Row)
    requires r.hidden == None
    ensures Staying(f, [r]) == [r]
  {
    assert [r][..0] == [];
  }

  /** Rows drawn from rows that belong to `s`, and from `x`, which does, belong to `s`. */
  lemma PointBackWithinPlus(sub: seq<Row>, all: seq<Row>, x: Row, s: Section)
    requires PointBack(all, s) && x.section == s && forall y :: y in sub ==> y in all || y == x
    ensures PointBack(sub, s)
  {
    forall j | 0 <= j < |sub| ensures sub[j].section == s {
      if sub[j] != x {
        assert sub[j] in all;
        var k :| 0 <= k < |all| && all[k] == sub[j];
      }
    }
  }

  /** Inserting one item adds that item and nothing else to all items. */
  lemma InsertedMembers<T>(visible: seq<T>, all: seq<T>, i: nat, x: T)
    requires i <= |visible|
    ensures forall y :: y in ReplaceAll(visible, all, i, i, [x]) ==> y in all || y == x
  {
    var rest := Except(all, visible[i..i]);
    var idx := InsertionIndex(ReplaceVisible(visible, i, i, [x]), rest, i);
    assert ReplaceAll(visible, all, i, i, [x]) == rest[..idx] + [x] + rest[idx..];
  }

  /**
   * The end of `expandInlineRow`, once the row has an index path `(_, i)`: `inline` goes into
   * the section just below the row and becomes its inline row.
   */
  method InsertBelow(row: Row, i: nat, inline: Row)
    requires row.InForm() && InlineReady(row.section.form) && row.section in row.section.form.allSections
    requires row.IndexPath().Some? && row.IndexPath().value.1 == i
    requires inline.section == null && inline.tag == None && inline.hidden == None
    modifies row`inlineRow, row.section, row.section.form, inline`section, inline`hiddenCache, inline`disabledCache, inline`isFirstResponder
    ensures row.section == old(row.section) && row.section.form == old(row.section.form)
    ensures InlineReady(row.section.form) && FormKeptButRegistry(row.section.form)
    ensures row.section.rows == old(row.section.rows)[..i + 1] + [inline] + old(row.section.rows)[i + 1..]
    ensures row.inlineRow == inline && Collapses(row) && row.IndexPath().value.1 == i
    ensures i + 1 < |row.section.rows| && BelowRow(row) == inline
  {
    var s := row.section;
    SubsequenceIsDistinct(s.rows, s.allRows);
    InsertInForm(s, i + 1, inline);
    row.inlineRow := inline;
    assert s.rows[i] == row;
    IndexOfDistinct(s.rows, i);
  }

  /**
   * `InsertBelow`, seen from the other rows of the form: those that were settled stay
   * settled, since the new row goes in just below `row`, which is not the last one below
   * which a settled row sits.
   */
  method InsertBelowKeeping(row: Row, i: nat, inline: Row, ghost snap: seq<Row>, ghost sections: seq<Section>)
    requires row.InForm() && InlineReady(row.section.form) && row.section in row.section.form.allSections
    requires row.IndexPath().Some? && row.IndexPath().value.1 == i
    requires sections == row.section.form.sections
    requires inline.section == null && inline.tag == None && inline.hidden == None
    requires forall k :: 0 <= k < |snap| ==> snap[k].section in row.section.form.allSections
    modifies row`inlineRow, row.section, row.section.form, inline`section, inline`hiddenCache, inline`disabledCache, inline`isFirstResponder
    ensures row.section == old(row.section) && row.section.form == old(row.section.form)
    ensures InlineReady(row.section.form) && row.section.form.sections == sections
    ensures row.section.rows == old(row.section.rows)[..i + 1] + [inline] + old(row.section.rows)[i + 1..]
    ensures row.inlineRow == inline && Collapses(row)
    ensures row.IndexPath().value.1 + 1 < |row.section.rows| && BelowRow(row) == inline
    ensures forall k :: 0 <= k < |snap| && snap[k] != row && snap[k].section != row.section && old(Settled(snap[k], sections)) ==> Settled(snap[k], sections)
    ensures forall k :: 0 <= k < |snap| && snap[k] != row && snap[k].section == row.section && old(Settled(snap[k], sections)) ==> Settled(snap[k], sections)
  {
    ghost var s := row.section;
    ghost var rows0 := s.rows;
    assert inline !in snap;
    InsertBelow(row, i, inline);
    assert rows0[i] == row;
    SpliceMembers(rows0, i + 1, inline);
    forall k | 0 <= k < |snap| && snap[k] != row && snap[k].section == s && old(Settled(snap[k], sections))
      ensures Settled(snap[k], sections)
    {
      var q := snap[k];
      if q.inlineRow != null && s in sections && q in s.rows {
        assert old(q.inlineRow) != null && old(q.section) == s && q in rows0;
        assert rows0[|rows0| - 1] == q;
        LastAfterSplice(rows0, i + 1, inline);
      }
    }
  }

  /** Whether expanding collapses the other inline rows: `.AnotherInlineRowIsShown` is in effect. */
  function HidesOthers(options: Option<Bits>): bool {
    Contains(if options.Some? then options.value else DefaultInlineRowHideOptions, AnotherInlineRowIsShown)
  }

  /** All rows of the row's form, or none without one. */
  function FormRows(row: Row): seq<Row>
    reads row, row.section, row.FormOf(), if row.FormOf() == null then {} else set s | s in row.FormOf().allSections
  {
    if row.FormOf() == null then [] else row.FormOf().AllRows()
  }

  /** All sections of the row's form, or none without one. */
  function FormSections(row: Row): seq<Section>
    reads row, row.section, row.FormOf()
  {
    if row.FormOf() == null then [] else row.FormOf().allSections
  }

  /** Every row among the sections of a ready form sits in one of them. */
  lemma RowsInSections(f: Form)
    requires InlineReady(f)
    ensures forall k :: 0 <= k < |f.AllRows()| ==> f.AllRows()[k].section in f.allSections
  {
    EveryRowSpec(f.allSections);
    forall k | 0 <= k < |f.AllRows()| ensures f.AllRows()[k].section in f.allSections {
      var j :| 0 <= j < |f.allSections| && f.AllRows()[k] in f.allSections[j].allRows;
      var n :| 0 <= n < |f.allSections[j].allRows| && f.allSections[j].allRows[n] == f.AllRows()[k];
    }
  }

  /**
   * `expandInlineRow` once the row is known to have no inline row and a form: the other
   * inline rows of the form, listed in `snap`, collapse if `.AnotherInlineRowIsShown` is in
   * effect, then `inline` goes in below the row if it still has an index path.
   */
  method ExpandInForm(row: Row, inline: Row, snap: seq<Row>)
    requires row.InForm() && InlineReady(row.section.form) && row.section in row.section.form.allSections
    requires snap == row.section.form.AllRows() && row.inlineRow == null
    requires inline.section == null && inline.tag == None && inline.hidden == None
    modifies row`inlineRow, row.section, row.section.form, row.section.form.allSections, snap`inlineRow
    modifies inline`section, inline`hiddenCache, inline`disabledCache, inline`isFirstResponder
    ensures row.section == old(row.section) && row.section.form == old(row.section.form)
    ensures InlineReady(row.section.form)
    ensures row.inlineRow != null <==> row.IndexPath().Some?
    ensures row.inlineRow != null ==>
      row.inlineRow == inline && row.IndexPath().value.1 + 1 < |row.section.rows| && BelowRow(row) == inline
    ensures old(HidesOthers(row.section.form.inlineRowHideOptions)) ==>
      forall k :: 0 <= k < |snap| && snap[k] != row && snap[k].isInlineRowType ==> Settled(snap[k], row.section.form.sections)
    ensures !old(HidesOthers(row.section.form.inlineRowHideOptions)) ==>
      && (forall t :: t in old(row.section.form.allSections) && t != row.section ==> t.rows == old(t.rows))
      && (old(row.IndexPath()).None? ==> row.section.rows == old(row.section.rows))
      && (old(row.IndexPath()).Some? ==> var i := old(row.IndexPath()).value.1;
            row.section.rows == old(row.section.rows)[..i + 1] + [inline] + old(row.section.rows)[i + 1..])
  {
    var f := row.section.form;
    RowsInSections(f);
    if HidesOthers(f.inlineRowHideOptions) {
      CollapseOthers(f, snap);
    }
    var p := row.IndexPath();
    if p.Some? {
      InsertBelowKeeping(row, p.value.1, inline, snap, f.sections);
    }
  }

  /**
   * `expandInlineRow`: a row with no inline row, in a section of a form, creates its inline
   * row carrying its value and pointing back to it; when `.AnotherInlineRowIsShown` is in
   * effect every inline row of the form is collapsed first; then, if the row still has an
   * index path, the new row goes in just below it and becomes its inline row. The new row is
   * returned (`null` when nothing happens).
   */
  method ExpandInlineRow(row: Row) returns (inline: Row?)
    requires row.InForm() ==> InlineReady(row.section.form) && row.section in row.section.form.allSections
    modifies row`inlineRow, row.section, row.FormOf(), FormRows(row)`inlineRow, FormSections(row)
    ensures old(row.inlineRow != null || !row.InForm()) ==>
      inline == null && row.inlineRow == old(row.inlineRow) && (old(row.section) != null ==> unchanged(old(row.section)))
    ensures old(row.inlineRow == null && row.InForm()) ==>
      && inline != null && fresh(inline)
      && inline.value == old(row.value) && inline.inlineParent == row && inline.tag == None && inline.kind == row.kind
      && row.section == old(row.section) && row.section.form == old(row.section.form)
      && InlineReady(row.section.form)
      && (row.inlineRow != null <==> row.IndexPath().Some?)
      && (row.inlineRow != null ==> row.inlineRow == inline && row.IndexPath().value.1 + 1 < |row.section.rows| && BelowRow(row) == inline)
    ensures old(row.inlineRow == null && row.InForm() && HidesOthers(row.section.form.inlineRowHideOptions)) ==>
      var rows := old(FormRows(row));
      forall k :: 0 <= k < |rows| && rows[k] != row && rows[k].isInlineRowType ==> Settled(rows[k], row.section.form.sections)
    ensures old(row.inlineRow == null && row.InForm() && !HidesOthers(row.section.form.inlineRowHideOptions)) ==>
      && (forall t :: t in old(row.section.form.allSections) && t != old(row.section) ==> t.rows == old(t.rows))
      && (old(row.IndexPath()).None? ==> row.section.rows == old(row.section.rows))
      && (old(row.IndexPath()).Some? ==> var i := old(row.IndexPath()).value.1;
            row.section.rows == old(row.section.rows)[..i + 1] + [inline] + old(row.section.rows)[i + 1..])
  {
    inline := null;
    if row.inlineRow != null || row.section == null || row.section.form == null {
      return;
    }
    // The rows of the form, as the collapsing loop will see them: the new row is not among them.
    var snap := row.section.form.AllRows();
    inline := new Row(None, row.kind, false, false);
    inline.value := row.value;
    inline.inlineParent := row;
    ExpandInForm(row, inline, snap);
  }

  /**
   * `toggleInlineRow`: a row showing its inline row collapses it, any other row expands one.
   * The row created by expanding is returned (`null` when collapsing or when nothing happens).
   */
  method ToggleInlineRow(row: Row) returns (inline: Row?)
    requires Placed(row)
    requires row.InForm() ==> InlineReady(row.section.form) && row.section in row.section.form.allSections
    requires Collapses(row) ==> row.IndexPath().value.1 + 1 < |row.section.rows|
    modifies row`inlineRow, row.section, row.FormOf(), FormRows(row)`inlineRow, FormSections(row)
    ensures old(row.inlineRow) != null ==> inline == null
    ensures old(Collapses(row)) ==> var i := old(row.IndexPath().value.1);
      row.inlineRow == null && row.section.rows == old(row.section.rows)[..i + 1] + old(row.section.rows)[i + 2..]
    ensures old(row.inlineRow != null && !Collapses(row)) ==> row.inlineRow == old(row.inlineRow)
    ensures old(row.inlineRow == null && !row.InForm()) ==> inline == null && row.inlineRow == null
    ensures old(row.inlineRow == null && row.InForm()) ==>
      && inline != null && fresh(inline) && inline.value == old(row.value) && inline.inlineParent == row
      && (row.inlineRow != null <==> row.IndexPath().Some?)
      && (row.inlineRow != null ==> row.inlineRow == inline && row.IndexPath().value.1 + 1 < |row.section.rows| && BelowRow(row) == inline)
    ensures old(row.inlineRow == null && row.InForm() && !HidesOthers(row.section.form.inlineRowHideOptions)) ==>
      && (forall t :: t in old(row.section.form.allSections) && t != old(row.section) ==> t.rows == old(t.rows))
      && (old(row.IndexPath()).None? ==> row.section.rows == old(row.section.rows))
      && (old(row.IndexPath()).Some? ==> var i := old(row.IndexPath()).value.1;
            row.section.rows == old(row.section.rows)[..i + 1] + [inline] + old(row.section.rows)[i + 1..])
  {
    if row.inlineRow != null {
      CollapseInlineRow(row);
      inline := null;
    } else {
      inline := ExpandInlineRow(row);
    }
  }
}
