/**
 * `SectionBuilder`, the result builder that turns a block of row expressions into a section.
 * Each component is a `RowsProvider`: a row provides itself, an array of rows its elements.
 * A block, either branch of an `if` and a present optional block flatten their components'
 * rows in order; an absent optional block, an absent row and nothing else contribute no
 * rows; a string (or no string) becomes a new row with that tag. The final rows make a
 * new section.
 */
module ResultBuilders {
  import opened Wrappers
  import opened Sequences
  import opened Conditions
  import opened Forms

  /** A `RowsProvider`: a single row or an array of rows. */
  datatype Provider = OneRow(row: Row) | RowArray(rows: seq<Row>)

  /** `rows` of a provider: `[self]` for a row, the array itself for an array. */
  function RowsOf(p: Provider): (r: seq<Row>)
    ensures p.OneRow? ==> r == [p.row]
    ensures p.RowArray? ==> r == p.rows
  {
    match p
    case OneRow(row) => [row]
    case RowArray(rows) => rows
  }

  /**
   * `buildBlock`, and both `buildEither(first:)` and `buildEither(second:)`, whose bodies are
   * the same `flatMap`: the components' rows one after another.
   */
  function BuildBlock(components: seq<Provider>): seq<Row> {
    if components == [] then [] else BuildBlock(components[..|components| - 1]) + RowsOf(components[|components| - 1])
  }

  /** Flattening two runs of components is flattening each and joining the results. */
  lemma {:induction false} BuildBlockConcat(a: seq<Provider>, b: seq<Provider>)
    ensures BuildBlock(a + b) == BuildBlock(a) + BuildBlock(b)
    decreases |b|
  {
    if b == [] {
      assert a + b == a;
    } else {
      var init, last := b[..|b| - 1], b[|b| - 1];
      var ab := a + b;
      assert ab[..|ab| - 1] == a + init && ab[|ab| - 1] == last;
      assert BuildBlock(ab) == BuildBlock(a + init) + RowsOf(last);
      assert BuildBlock(b) == BuildBlock(init) + RowsOf(last);
      BuildBlockConcat(a, init);
    }
  }

  /** A row contributes exactly itself; an array contributes its elements, in order. */
  lemma BuildBlockOne(p: Provider)
    ensures BuildBlock([p]) == RowsOf(p)
  {
    assert [p][..0] == [];
  }

  /** The rows of a block are the rows of its components, each in place: row `j` of component `k` sits after all rows of the earlier components. */
  lemma {:induction false} BuildBlockPositions(components: seq<Provider>, k: nat, j: nat)
    requires k < |components| && j < |RowsOf(components[k])|
    ensures |BuildBlock(components[..k])| + j < |BuildBlock(components)|
    ensures BuildBlock(components)[|BuildBlock(components[..k])| + j] == RowsOf(components[k])[j]
  {
    assert components == components[..k] + [components[k]] + components[k + 1..];
    BuildBlockConcat(components[..k] + [components[k]], components[k + 1..]);
    BuildBlockConcat(components[..k], [components[k]]);
    BuildBlockOne(components[k]);
  }

  /** `buildOptional`: the rows of a present block, none for an absent one. */
  function BuildOptional(components: Option<seq<Provider>>): (r: seq<Row>)
    ensures components.None? ==> r == []
    ensures components.Some? ==> r == BuildBlock(components.value)
  {
    match components
    case None => []
    case Some(c) => BuildBlock(c)
  }

  /** `buildExpression(BaseRow?)`: the row, or nothing for no row. */
  function BuildExpressionRow(expression: Option<Row>): (r: seq<Row>)
    ensures |r| <= 1
    ensures r == [] <==> expression.None?
    ensures expression.Some? ==> r[0] == expression.value
  {
    match expression
    case None => []
    case Some(row) => [row]
  }

  /** `buildExpression(String?)`: one new row, tagged with the string (untagged for no string). */
  method BuildExpressionTag(expression: Option<string>) returns (r: seq<Row>)
    ensures |r| == 1 && fresh(r[0]) && r[0].tag == expression
    ensures r[0].section == null && r[0].hidden == None && r[0].value == None
  {
    var row := new Row(expression, TextKind, false, false);
    r := [row];
  }

  /** Rows outside any form all stay visible when added. */
  lemma {:induction false} StayingOutsideForm(rs: seq<Row>)
    ensures Staying(null, rs) == rs
  {
    if rs != [] {
      StayingOutsideForm(rs[..|rs| - 1]);
      assert rs[..|rs| - 1] + [rs[|rs| - 1]] == rs;
    }
  }

  /** `buildFinalResult`: a new section, outside any form, holding the rows in order, all visible. */
  method BuildFinalResult(components: seq<Row>) returns (section: Section)
    requires Distinct(components)
    modifies components`section, components`hiddenCache, components`disabledCache, components`isFirstResponder
    ensures fresh(section) && section.Valid() && section.form == null
    ensures section.allRows == components && section.rows == components
    ensures forall k :: 0 <= k < |components| ==> components[k].section == section
  {
    section := new Section(None);
    assert section.allRows + components == components;
    section.AppendContentsOf(components);
    StayingOutsideForm(components);
  }
}
