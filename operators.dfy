/**
 * The form-building operators: `+++` puts sections into a form, `<<<` puts rows into a
 * section, `+=` appends a collection. Each operator appends into its left operand and hands
 * it back, or builds a new form or section when its operands are rows or sections. Both the
 * Swift 2 and the Swift 3 declarations are covered here; where they differ the member says so.
 *
 * The operators' precedence and associativity are modelled on their own, over operator
 * chains: `<<<` binds tighter than `+++`, and both group to the left.
 */
module Operators {
  import opened Wrappers
  import opened Sequences
  import opened Forms

  /** `form +++ section`: the section is appended to the form, which is returned. */
  method FormPlusSection(left: Form, right: Section) returns (form: Form)
    requires left.Valid() && right.Valid() && right !in left.allSections
    requires FreshIn(right.allRows, left.rowsByTag)
    modifies left, right, right.allRows`section, right.allRows`hiddenCache, right.allRows`disabledCache, right.allRows`isFirstResponder
    ensures form == left && left.Valid() && right.form == left && right.allRows == old(right.allRows)
    ensures left.allSections == old(left.allSections) + [right]
    ensures left.sections == old(left.sections) + (if SectionShown(right) then [right] else [])
    ensures left.rowsByTag == old(left.rowsByTag) + TagRegistry(right.allRows)
    ensures forall k :: 0 <= k < |right.allRows| ==> right.allRows[k].section == right
    ensures right.hidden == old(right.hidden)
  {
    left.Append(right);
    form := left;
  }

  /** A fresh section holding just `row`, visible, outside any form. */
  method SectionOf(row: Row) returns (section: Section)
    modifies row`section, row`hiddenCache, row`disabledCache, row`isFirstResponder
    ensures fresh(section) && section.Valid() && section.form == null && section.tag == None
    ensures section.allRows == [row] && section.rows == [row] && row.section == section
    ensures section.hidden == None
  {
    section := new Section(None);
    section.Append(row);
  }

  /**
   * `form +++= row` (Swift 2) and `form +++ row` (Swift 3): the row goes into a new section,
   * appended to the form, which is returned.
   */
  method FormPlusRow(left: Form, right: Row) returns (form: Form)
    requires left.Valid() && FreshIn([right], left.rowsByTag)
    modifies left, right`section, right`hiddenCache, right`disabledCache, right`isFirstResponder
    ensures form == left && left.Valid()
    ensures |left.allSections| == |old(left.allSections)| + 1 && left.allSections[..|old(left.allSections)|] == old(left.allSections)
    ensures var s := left.allSections[|left.allSections| - 1];
      && fresh(s) && s.form == left && s.allRows == [right] && right.section == s
      && left.sections == old(left.sections) + [s]
    ensures left.rowsByTag == old(left.rowsByTag) + TagRegistry([right])
  {
    var section := SectionOf(right);
    form := FormPlusSection(left, section);
    assert section.allRows[0] == right;
  }

  /** `section +++ section`: a new form holding the two sections, in order. */
  method SectionPlusSection(left: Section, right: Section) returns (form: Form)
    requires left != right && left.Valid() && right.Valid()
    requires FreshIn(left.allRows, map[]) && FreshIn(right.allRows, TagRegistry(left.allRows))
    modifies left, left.allRows`section, left.allRows`hiddenCache, left.allRows`disabledCache, left.allRows`isFirstResponder
    modifies right, right.allRows`section, right.allRows`hiddenCache, right.allRows`disabledCache, right.allRows`isFirstResponder
    ensures fresh(form) && form.Valid() && form.allSections == [left, right]
    ensures left.form == form && right.form == form
    ensures left.allRows == old(left.allRows) && right.allRows == old(right.allRows)
    ensures form.rowsByTag == TagRegistry(left.allRows) + TagRegistry(right.allRows)
    ensures forall k :: 0 <= k < |left.allRows| && left.allRows[k] !in right.allRows ==> left.allRows[k].section == left
    ensures forall k :: 0 <= k < |right.allRows| ==> right.allRows[k].section == right
  {
    form := new Form();
    ghost var leftRows := left.allRows;
    var _ := FormPlusSection(form, left);
    assert map[] + TagRegistry(leftRows) == TagRegistry(leftRows);
    var _ := FormPlusSection(form, right);
  }

  /** Swift 3 `section +++ row`: a new form holding the section and then a new section with the row. */
  method SectionPlusRow(left: Section, right: Row) returns (form: Form)
    requires left.Valid() && right !in left.allRows
    requires FreshIn(left.allRows, map[]) && FreshIn([right], TagRegistry(left.allRows))
    modifies left, left.allRows`section, left.allRows`hiddenCache, left.allRows`disabledCache, left.allRows`isFirstResponder
    modifies right`section, right`hiddenCache, right`disabledCache, right`isFirstResponder
    ensures fresh(form) && form.Valid() && |form.allSections| == 2 && form.allSections[0] == left
    ensures fresh(form.allSections[1]) && form.allSections[1].allRows == [right] && right.section == form.allSections[1]
    ensures left.form == form && form.allSections[1].form == form
  {
    var section := SectionOf(right);
    form := SectionPlusSection(left, section);
    assert section.allRows[0] == right;
  }

  /**
   * `row +++ row`, written `Section() <<< left +++ Section() <<< right`: a new form with two
   * new sections, one row each.
   */
  method RowPlusRow(left: Row, right: Row) returns (form: Form)
    requires left != right && FreshIn([left, right], map[])
    modifies left`section, left`hiddenCache, left`disabledCache, left`isFirstResponder
    modifies right`section, right`hiddenCache, right`disabledCache, right`isFirstResponder
    ensures fresh(form) && form.Valid() && |form.allSections| == 2
    ensures var s0, s1 := form.allSections[0], form.allSections[1];
      && fresh(s0) && fresh(s1) && s0.allRows == [left] && s1.allRows == [right]
      && left.section == s0 && right.section == s1 && s0.form == form && s1.form == form
  {
    var first := SectionOf(left);
    var second := SectionOf(right);
    assert FreshAt([left, right], map[], 0);
    TagRegistrySpec([left]);
    assert [left][0] == left && [left, right][0] == left && [left, right][1] == right;
    assert FreshAt([right], TagRegistry([left]), 0);
    form := SectionPlusSection(first, second);
    assert first.allRows[0] == left && second.allRows[0] == right;
  }

  /** `section <<< row`: the row is appended to the section, which is returned. */
  method SectionPlusRowInto(left: Section, right: Row) returns (section: Section)
    requires left.Valid() && right !in left.allRows
    requires left.form != null ==> FreshIn([right], left.form.rowsByTag)
    modifies left, left.form, right`section, right`hiddenCache, right`disabledCache, right`isFirstResponder
    ensures section == left && left.Valid() && right.section == left && left.form == old(left.form)
    ensures left.allRows == old(left.allRows) + [right]
    ensures left.rows == old(left.rows) + (if StaysVisible(left.form, right) then [right] else [])
  {
    left.Append(right);
    section := left;
  }

  /** `row <<< row`: a new section holding the two rows, in order. */
  method RowPlusRowInto(left: Row, right: Row) returns (section: Section)
    requires left != right
    modifies left`section, left`hiddenCache, left`disabledCache, left`isFirstResponder
    modifies right`section, right`hiddenCache, right`disabledCache, right`isFirstResponder
    ensures fresh(section) && section.Valid() && section.form == null
    ensures section.allRows == [left, right] && section.rows == [left, right]
    ensures left.section == section && right.section == section
  {
    section := new Section(None);
    var _ := SectionPlusRowInto(section, left);
    var _ := SectionPlusRowInto(section, right);
  }

  /** `section += rows`: the rows are appended in order. */
  method SectionAddAll(lhs: Section, rhs: seq<Row>)
    requires lhs.Valid() && Distinct(lhs.allRows + rhs)
    requires lhs.form != null ==> FreshIn(rhs, lhs.form.rowsByTag)
    modifies lhs, lhs.form, rhs`section, rhs`hiddenCache, rhs`disabledCache, rhs`isFirstResponder
    ensures lhs.Valid() && lhs.form == old(lhs.form)
    ensures lhs.allRows == old(lhs.allRows) + rhs
    ensures lhs.rows == old(lhs.rows) + Staying(lhs.form, rhs)
    ensures forall k :: 0 <= k < |rhs| ==> rhs[k].section == lhs
  {
    lhs.AppendContentsOf(rhs);
  }

  /** `form += sections`: the sections are appended in order. */
  method FormAddAll(lhs: Form, rhs: seq<Section>)
    requires lhs.Valid() && Distinct(lhs.allSections + rhs) && SectionsValid(rhs)
    requires FreshIn(EveryRow(rhs), lhs.rowsByTag)
    modifies lhs, rhs, EveryRow(rhs)`section, EveryRow(rhs)`hiddenCache, EveryRow(rhs)`disabledCache, EveryRow(rhs)`isFirstResponder
    ensures lhs.Valid() && lhs.allSections == old(lhs.allSections) + rhs
    ensures lhs.sections == old(lhs.sections) + Select(rhs, ShownFlags(rhs))
    ensures forall k :: 0 <= k < |rhs| ==> rhs[k].form == lhs
  {
    lhs.AppendContentsOf(rhs);
  }

  // Precedence and associativity.

  /** The two builder operators. */
  datatype Op = FormOp | SectionOp

  /** `+++` is declared with precedence 95 (Swift 3: `FormPrecedence`), `<<<` with 100 (`SectionPrecedence`, higher). */
  function Precedence(op: Op): (p: nat)
    ensures p == 95 || p == 100
  {
    match op
    case FormOp => 95
    case SectionOp => 100
  }

  /** How an operator chain groups: operand `n` is a leaf, an operator a node over two subexpressions. */
  datatype Expr = Operand(n: nat) | Apply(op: Op, left: Expr, right: Expr)

  /** The operands in the order they were written. */
  function Leaves(e: Expr): seq<nat> {
    match e
    case Operand(n) => [n]
    case Apply(_, l, r) => Leaves(l) + Leaves(r)
  }

  /** Every operator in `e` has at least precedence `p`. */
  predicate AtLeast(e: Expr, p: nat) {
    match e
    case Operand(_) => true
    case Apply(op, l, r) => Precedence(op) >= p && AtLeast(l, p) && AtLeast(r, p)
  }

  /**
   * `e` groups as Swift groups a chain of left-associative operators: the right operand of an
   * operator holds only operators of strictly higher precedence, its left operand only
   * operators of at least its own.
   */
  predicate Grouped(e: Expr) {
    match e
    case Operand(_) => true
    case Apply(op, l, r) =>
      AtLeast(l, Precedence(op)) && AtLeast(r, Precedence(op) + 1) && Grouped(l) && Grouped(r)
  }

  /** `x1 <<< x2 <<< ... <<< xn` over operands `first, first + 1, …, first + count - 1`, grouped to the left. */
  function SectionChain(first: nat, count: nat): (e: Expr)
    requires count > 0
    ensures Leaves(e) == seq(count, k => first + k)
    ensures AtLeast(e, 100) && Grouped(e)
  {
    if count == 1 then Operand(first)
    else
      var init := SectionChain(first, count - 1);
      assert seq(count, k => first + k) == seq(count - 1, k => first + k) + [first + count - 1];
      Apply(SectionOp, init, Operand(first + count - 1))
  }

  /**
   * A chain `g1 +++ g2 +++ … +++ gm` whose groups `gi` are runs of operands joined by `<<<`,
   * given by their sizes: the `+++` operators group to the left over the `<<<` runs.
   */
  function FormChain(first: nat, groups: seq<nat>): (e: Expr)
    requires |groups| > 0 && forall k :: 0 <= k < |groups| ==> groups[k] > 0
    ensures AtLeast(e, 95) && Grouped(e)
    decreases |groups|
  {
    if |groups| == 1 then
      var e := SectionChain(first, groups[0]);
      AtLeastWeaken(e, 100, 95);
      e
    else
      var init := FormChain(first, groups[..|groups| - 1]);
      var last := SectionChain(first + Total(groups[..|groups| - 1]), groups[|groups| - 1]);
      AtLeastWeaken(last, 100, 96);
      AtLeastWeaken(last, 100, 95);
      Apply(FormOp, init, last)
  }

  /** Operators of precedence at least `p` are also at least `q`, for `q <= p`. */
  lemma AtLeastWeaken(e: Expr, p: nat, q: nat)
    requires AtLeast(e, p) && q <= p
    ensures AtLeast(e, q)
  {
  }

  /** The number of operands in the groups. */
  function Total(groups: seq<nat>): nat {
    if groups == [] then 0 else Total(groups[..|groups| - 1]) + groups[|groups| - 1]
  }

  /** A grouped chain keeps its operands in the order they were written. */
  lemma {:induction false} FormChainLeaves(first: nat, groups: seq<nat>)
    requires |groups| > 0 && forall k :: 0 <= k < |groups| ==> groups[k] > 0
    ensures Leaves(FormChain(first, groups)) == seq(Total(groups), k => first + k)
    decreases |groups|
  {
    if |groups| > 1 {
      var init := groups[..|groups| - 1];
      FormChainLeaves(first, init);
      assert groups[..|groups| - 1] == init;
      var n := Total(init);
      var m := groups[|groups| - 1];
      assert seq(n + m, k => first + k) == seq(n, k => first + k) + seq(m, k => first + n + k);
    }
  }

  /**
   * `Section() <<< left +++ Section() <<< right`, the body of `row +++ row`: the two `<<<`
   * apply first, then `+++` joins the two sections.
   */
  lemma RowPlusRowGroups()
    ensures FormChain(0, [2, 2]) == Apply(FormOp, Apply(SectionOp, Operand(0), Operand(1)), Apply(SectionOp, Operand(2), Operand(3)))
  {
    assert [2, 2][..1] == [2];
    assert Total([2]) == 2 by { assert [2][..0] == []; }
  }

  /** `form +++ left +++ right`, the body of `section +++ section`: the first `+++` applies first. */
  lemma LeftAssociative()
    ensures FormChain(0, [1, 1, 1]) == Apply(FormOp, Apply(FormOp, Operand(0), Operand(1)), Operand(2))
  {
    assert [1, 1, 1][..2] == [1, 1];
    assert [1, 1][..1] == [1];
    assert Total([1, 1]) == 2 by { assert [1, 1][..1] == [1]; assert [1][..0] == []; }
  }
}
