/**
 * The cascading pickers: `DoublePickerRow`, `DoublePickerInputRow` and `MultiplePickerRow`
 * (two components) and `TriplePickerRow` and `TriplePickerInputRow` (three components).
 * A row is given its options as closures: the first component's options, the second's for a
 * chosen first value and the third's for a chosen pair. Selecting a picker row updates the
 * row's value so that later components keep their choice while it is still offered and
 * otherwise fall back to the first option.
 */
module Pickers {
  import opened Wrappers

  /** `Tuple`, the value of a two-component picker. */
  datatype Tuple<A, B> = Tuple(a: A, b: B)

  /** `Tuple3`, the value of a three-component picker. */
  datatype Tuple3<A, B, C> = Tuple3(a: A, b: B, c: C)

  /** `==` on `Tuple`: componentwise. */
  function TupleEquals<A(==), B(==)>(l: Tuple<A, B>, r: Tuple<A, B>): (e: bool)
    ensures e <==> l == r
  {
    l.a == r.a && l.b == r.b
  }

  /** `==` on `Tuple3`: componentwise. */
  function Tuple3Equals<A(==), B(==), C(==)>(l: Tuple3<A, B, C>, r: Tuple3<A, B, C>): (e: bool)
    ensures e <==> l == r
  {
    l.a == r.a && l.b == r.b && l.c == r.c
  }

  /** A two-component value that the options offer: its second part is among the options for its first. */
  predicate Offered<A(==), B(==)>(v: Option<Tuple<A, B>>, second: A -> seq<B>) {
    v.Some? ==> v.value.b in second(v.value.a)
  }

  /** A three-component value that the options offer. */
  predicate Offered3<A(==), B(==), C(==)>(v: Option<Tuple3<A, B, C>>, second: A -> seq<B>, third: (A, B) -> seq<C>) {
    v.Some? ==> v.value.b in second(v.value.a) && v.value.c in third(v.value.a, v.value.b)
  }

  /** `selectedFirst()`: the value's first part, else the first of the first options. */
  function SelectedFirstOf<A, B>(v: Option<Tuple<A, B>>, first: seq<A>): (a: A)
    requires v.Some? || |first| > 0
    ensures v.Some? ==> a == v.value.a
    ensures v.None? ==> a == first[0]
  {
    if v.Some? then v.value.a else first[0]
  }

  /** The selection in component 0 or 1 does not index past an option list. */
  predicate CanSelect<A(==), B(==)>(v: Option<Tuple<A, B>>, first: seq<A>, second: A -> seq<B>, row: nat, component: nat) {
    if component == 0 then
      row < |first| && (v.None? || (v.value.a != first[row] && v.value.b !in second(first[row])) ==> |second(first[row])| > 0)
    else
      (v.Some? || |first| > 0) && row < |second(SelectedFirstOf(v, first))|
  }

  /**
   * The value after `pickerView(_:didSelectRow:inComponent:)`: in component 0 the current
   * first part changes nothing, a new one keeps the second part while it is offered and
   * otherwise takes the first second option; in component 1 the second part is the chosen
   * row's option for the selected first part.
   */
  function Select<A(==), B(==)>(v: Option<Tuple<A, B>>, first: seq<A>, second: A -> seq<B>, row: nat, component: nat): Option<Tuple<A, B>>
    requires CanSelect(v, first, second, row, component)
  {
    if component == 0 then
      var a := first[row];
      if v.Some? && v.value.a == a then v
      else if v.Some? && v.value.b in second(a) then Some(Tuple(a, v.value.b))
      else Some(Tuple(a, second(a)[0]))
    else
      var a := SelectedFirstOf(v, first);
      Some(Tuple(a, second(a)[row]))
  }

  /** Every selection leaves an offered value, and whatever was picked is part of it. */
  lemma SelectIsOffered<A, B>(v: Option<Tuple<A, B>>, first: seq<A>, second: A -> seq<B>, row: nat, component: nat)
    requires CanSelect(v, first, second, row, component) && Offered(v, second)
    ensures var w := Select(v, first, second, row, component);
            w.Some? && Offered(w, second) &&
            (component == 0 ==> w.value.a == first[row]) &&
            (component != 0 ==> w.value.b == second(w.value.a)[row])
  {
  }

  /**
   * A new first part keeps the second part exactly when it is still offered; only a value
   * that is absent, or whose second part is not offered, is reset to the first option.
   */
  lemma SelectKeepsSecond<A, B>(v: Option<Tuple<A, B>>, first: seq<A>, second: A -> seq<B>, row: nat)
    requires CanSelect(v, first, second, row, 0) && v.Some?
    ensures var w := Select(v, first, second, row, 0);
            w.value.b == v.value.b <== v.value.b in second(first[row])
    ensures var w := Select(v, first, second, row, 0);
            v.value.a != first[row] && v.value.b !in second(first[row]) ==> w == Some(Tuple(first[row], second(first[row])[0]))
  {
  }

  /** A sequence of picks: (row, component) pairs, applied in order. */
  function SelectAll<A(==), B(==)>(v: Option<Tuple<A, B>>, first: seq<A>, second: A -> seq<B>, picks: seq<(nat, nat)>): Option<Tuple<A, B>>
    decreases |picks|
  {
    if picks == [] || !CanSelect(v, first, second, picks[0].0, picks[0].1) then v
    else SelectAll(Select(v, first, second, picks[0].0, picks[0].1), first, second, picks[1..])
  }

  /** However many picks are made, an offered value stays offered. */
  lemma {:induction false} SelectAllIsOffered<A, B>(v: Option<Tuple<A, B>>, first: seq<A>, second: A -> seq<B>, picks: seq<(nat, nat)>)
    requires Offered(v, second)
    ensures Offered(SelectAll(v, first, second, picks), second)
    decreases |picks|
  {
    if picks != [] && CanSelect(v, first, second, picks[0].0, picks[0].1) {
      SelectIsOffered(v, first, second, picks[0].0, picks[0].1);
      SelectAllIsOffered(Select(v, first, second, picks[0].0, picks[0].1), first, second, picks[1..]);
    }
  }

  /**
   * A two-component picker row: `_DoublePickerRow`, `_DoublePickerInputRow` and
   * `_MultiplePickerRow` share this state and this selection rule.
   */
  class DoublePickerRow<A(==), B(==)> {
    var value: Option<Tuple<A, B>>
    var firstOptions: seq<A>
    var secondOptions: A -> seq<B>

    /** A row with no value and no options (the defaults `{[]}` and `{_ in []}`). */
    constructor ()
      ensures value == None && firstOptions == []
      ensures forall a :: secondOptions(a) == []
    {
      value := None;
      firstOptions := [];
      secondOptions := (a: A) => [];
    }

    /** `selectedFirst()`. */
    function SelectedFirst(): (a: A)
      reads this
      requires value.Some? || |firstOptions| > 0
      ensures value.Some? ==> a == value.value.a
      ensures value.None? ==> a == firstOptions[0]
    {
      SelectedFirstOf(value, firstOptions)
    }

    /** `numberOfRowsInComponent` of `DoublePickerCell` and `DoublePickerInputCell`. */
    function NumberOfRows(component: nat): (n: nat)
      reads this
      requires component != 0 ==> value.Some? || |firstOptions| > 0
      ensures component == 0 ==> n == |firstOptions|
      ensures component != 0 ==> n == |secondOptions(SelectedFirst())|
    {
      if component == 0 then |firstOptions| else |secondOptions(SelectedFirst())|
    }

    /** `numberOfRowsInComponent` of `MultiplePickerCell`: no second rows while there is no value. */
    function MultipleNumberOfRows(component: nat): (n: nat)
      reads this
      ensures component == 0 ==> n == |firstOptions|
      ensures component != 0 && value.None? ==> n == 0
      ensures component != 0 && value.Some? ==> n == |secondOptions(value.value.a)|
    {
      if component == 0 then |firstOptions| else if value.None? then 0 else |secondOptions(value.value.a)|
    }

    /** `pickerView(_:didSelectRow:inComponent:)`: only the value changes. */
    method DidSelectRow(row: nat, component: nat)
      requires CanSelect(value, firstOptions, secondOptions, row, component)
      modifies this
      ensures firstOptions == old(firstOptions) && secondOptions == old(secondOptions)
      ensures value == Select(old(value), firstOptions, secondOptions, row, component)
      ensures old(Offered(value, secondOptions)) ==> Offered(value, secondOptions)
    {
      if Offered(value, secondOptions) {
        SelectIsOffered(value, firstOptions, secondOptions, row, component);
      }
      if component == 0 {
        var a := firstOptions[row];
        if value.Some? {
          if value.value.a == a {
            return;
          }
          if value.value.b in secondOptions(a) {
            value := Some(Tuple(a, value.value.b));
            return;
          } else {
            value := Some(Tuple(a, secondOptions(a)[0]));
          }
        } else {
          value := Some(Tuple(a, secondOptions(a)[0]));
        }
      } else {
        var a := SelectedFirst();
        value := Some(Tuple(a, secondOptions(a)[row]));
      }
    }
  }

  /**
   * `displayValueFor` of `DoublePickerInputRow`: "a, b" for a value, `noValueDisplayText`
   * without one. `String(describing:)` is given as `showA` and `showB`.
   */
  function DoubleDisplay<A, B>(v: Option<Tuple<A, B>>, noValueDisplayText: Option<string>,
                               showA: A -> string, showB: B -> string): (d: Option<string>)
    ensures v.None? ==> d == noValueDisplayText
    ensures v.Some? ==> d.Some? && d.value == showA(v.value.a) + ", " + showB(v.value.b)
  {
    if v.None? then noValueDisplayText else Some(showA(v.value.a) + ", " + showB(v.value.b))
  }

  /** `selectedSecond()`: the value's second part, else the first second option for the selected first part. */
  function SelectedSecond<A, B, C>(v: Option<Tuple3<A, B, C>>, first: seq<A>, second: A -> seq<B>): (b: B)
    requires v.Some? || (|first| > 0 && |second(first[0])| > 0)
    ensures v.Some? ==> b == v.value.b
    ensures v.None? ==> b == second(first[0])[0]
  {
    if v.Some? then v.value.b else second(first[0])[0]
  }

  /** `selectedFirst()` of a three-component picker. */
  function SelectedFirst3<A, B, C>(v: Option<Tuple3<A, B, C>>, first: seq<A>): (a: A)
    requires v.Some? || |first| > 0
    ensures v.Some? ==> a == v.value.a
    ensures v.None? ==> a == first[0]
  {
    if v.Some? then v.value.a else first[0]
  }

  /** Component 0 of a three-component picker: the later parts for a new first part `a`. */
  function Cascade<A(==), B(==), C(==)>(v: Tuple3<A, B, C>, a: A, second: A -> seq<B>, third: (A, B) -> seq<C>): Tuple3<A, B, C>
    requires v.b in second(a) || |second(a)| > 0
    requires var b := if v.b in second(a) then v.b else second(a)[0];
             v.c in third(a, b) || |third(a, b)| > 0
  {
    var b := if v.b in second(a) then v.b else second(a)[0];
    var c := if v.c in third(a, b) then v.c else third(a, b)[0];
    Tuple3(a, b, c)
  }

  /** The selection in a three-component picker does not index past an option list. */
  predicate CanSelect3<A(==), B(==), C(==)>(v: Option<Tuple3<A, B, C>>, first: seq<A>, second: A -> seq<B>,
                                            third: (A, B) -> seq<C>, row: nat, component: nat) {
    if component == 0 then
      row < |first| &&
      var a := first[row];
      if v.Some? then
        v.value.a != a ==>
          (v.value.b in second(a) || |second(a)| > 0) &&
          var b := if v.value.b in second(a) then v.value.b else second(a)[0];
          v.value.c in third(a, b) || |third(a, b)| > 0
      else
        |second(a)| > 0 && |third(a, second(a)[0])| > 0
    else if component == 1 then
      (v.Some? || |first| > 0) &&
      var a := SelectedFirst3(v, first);
      row < |second(a)| &&
      var b := second(a)[row];
      (v.None? || (v.value.b != b && v.value.c !in third(a, b)) ==> |third(a, b)| > 0)
    else
      (v.Some? || (|first| > 0 && |second(first[0])| > 0)) &&
      row < |third(SelectedFirst3(v, first), SelectedSecond(v, first, second))|
  }

  /**
   * The value after `pickerView(_:didSelectRow:inComponent:)` of a three-component picker:
   * in component 0 a new first part cascades to the later parts, in component 1 a new
   * second part keeps an offered third part, in component 2 the third part is the chosen row.
   */
  function Select3<A(==), B(==), C(==)>(v: Option<Tuple3<A, B, C>>, first: seq<A>, second: A -> seq<B>,
                                        third: (A, B) -> seq<C>, row: nat, component: nat): Option<Tuple3<A, B, C>>
    requires CanSelect3(v, first, second, third, row, component)
  {
    if component == 0 then
      var a := first[row];
      if v.Some? then
        if v.value.a == a then v else Some(Cascade(v.value, a, second, third))
      else
        var b := second(a)[0];
        Some(Tuple3(a, b, third(a, b)[0]))
    else if component == 1 then
      var a := SelectedFirst3(v, first);
      var b := second(a)[row];
      if v.Some? && v.value.b == b then v
      else if v.Some? && v.value.c in third(a, b) then Some(Tuple3(a, b, v.value.c))
      else Some(Tuple3(a, b, third(a, b)[0]))
    else
      var a := SelectedFirst3(v, first);
      var b := SelectedSecond(v, first, second);
      Some(Tuple3(a, b, third(a, b)[row]))
  }

  /** Every selection leaves an offered value, and whatever was picked is part of it. */
  lemma Select3IsOffered<A, B, C>(v: Option<Tuple3<A, B, C>>, first: seq<A>, second: A -> seq<B>,
                                              third: (A, B) -> seq<C>, row: nat, component: nat)
    requires CanSelect3(v, first, second, third, row, component) && Offered3(v, second, third)
    ensures var w := Select3(v, first, second, third, row, component);
            w.Some? && Offered3(w, second, third) &&
            (component == 0 ==> w.value.a == first[row]) &&
            (component == 1 ==> w.value.b == second(w.value.a)[row]) &&
            (component >= 2 ==> w.value.c == third(w.value.a, w.value.b)[row])
  {
  }

  /**
   * The cascade keeps what is still offered: a new first part keeps the second part iff it
   * is offered for it, and then keeps the third part iff that is offered for the new pair.
   */
  lemma CascadeKeeps<A, B, C>(v: Tuple3<A, B, C>, a: A, second: A -> seq<B>, third: (A, B) -> seq<C>)
    requires v.b in second(a) || |second(a)| > 0
    requires var b := if v.b in second(a) then v.b else second(a)[0];
             v.c in third(a, b) || |third(a, b)| > 0
    ensures var w := Cascade(v, a, second, third);
            w.a == a && (w.b == v.b <== v.b in second(a)) && (v.b !in second(a) ==> w.b == second(a)[0]) &&
            (w.c == v.c <== v.c in third(a, w.b)) && (v.c !in third(a, w.b) ==> w.c == third(a, w.b)[0])
  {
  }

  /** A sequence of picks on a three-component picker. */
  function Select3All<A(==), B(==), C(==)>(v: Option<Tuple3<A, B, C>>, first: seq<A>, second: A -> seq<B>,
                                           third: (A, B) -> seq<C>, picks: seq<(nat, nat)>): Option<Tuple3<A, B, C>>
    decreases |picks|
  {
    if picks == [] || !CanSelect3(v, first, second, third, picks[0].0, picks[0].1) then v
    else Select3All(Select3(v, first, second, third, picks[0].0, picks[0].1), first, second, third, picks[1..])
  }

  /** However many picks are made, an offered value stays offered. */
  lemma {:induction false} Select3AllIsOffered<A, B, C>(v: Option<Tuple3<A, B, C>>, first: seq<A>, second: A -> seq<B>,
                                                                    third: (A, B) -> seq<C>, picks: seq<(nat, nat)>)
    requires Offered3(v, second, third)
    ensures Offered3(Select3All(v, first, second, third, picks), second, third)
    decreases |picks|
  {
    if picks != [] && CanSelect3(v, first, second, third, picks[0].0, picks[0].1) {
      Select3IsOffered(v, first, second, third, picks[0].0, picks[0].1);
      Select3AllIsOffered(Select3(v, first, second, third, picks[0].0, picks[0].1), first, second, third, picks[1..]);
    }
  }

  /** A three-component picker row: `_TriplePickerRow` and `_TriplePickerInputRow`. */
  class TriplePickerRow<A(==), B(==), C(==)> {
    var value: Option<Tuple3<A, B, C>>
    var firstOptions: seq<A>
    var secondOptions: A -> seq<B>
    var thirdOptions: (A, B) -> seq<C>

    /** A row with no value and no options. */
    constructor ()
      ensures value == None && firstOptions == []
      ensures forall a :: secondOptions(a) == []
      ensures forall a, b :: thirdOptions(a, b) == []
    {
      value := None;
      firstOptions := [];
      secondOptions := (a: A) => [];
      thirdOptions := (a: A, b: B) => [];
    }

    /** `numberOfRowsInComponent` of `TriplePickerCell`. */
    function NumberOfRows(component: nat): (n: nat)
      reads this
      requires component != 0 ==> value.Some? || |firstOptions| > 0
      requires component >= 2 ==> value.Some? || |secondOptions(firstOptions[0])| > 0
      ensures component == 0 ==> n == |firstOptions|
      ensures component == 1 ==> n == |secondOptions(SelectedFirst3(value, firstOptions))|
      ensures component >= 2 ==> n == |thirdOptions(SelectedFirst3(value, firstOptions), SelectedSecond(value, firstOptions, secondOptions))|
    {
      if component == 0 then |firstOptions|
      else if component == 1 then |secondOptions(SelectedFirst3(value, firstOptions))|
      else |thirdOptions(SelectedFirst3(value, firstOptions), SelectedSecond(value, firstOptions, secondOptions))|
    }

    /** `pickerView(_:didSelectRow:inComponent:)`: only the value changes. */
    method DidSelectRow(row: nat, component: nat)
      requires CanSelect3(value, firstOptions, secondOptions, thirdOptions, row, component)
      modifies this
      ensures firstOptions == old(firstOptions) && secondOptions == old(secondOptions) && thirdOptions == old(thirdOptions)
      ensures value == Select3(old(value), firstOptions, secondOptions, thirdOptions, row, component)
      ensures old(Offered3(value, secondOptions, thirdOptions)) ==> Offered3(value, secondOptions, thirdOptions)
    {
      if Offered3(value, secondOptions, thirdOptions) {
        Select3IsOffered(value, firstOptions, secondOptions, thirdOptions, row, component);
      }
      if component == 0 {
        var a := firstOptions[row];
        if value.Some? {
          if value.value.a == a {
            return;
          }
          var b := if value.value.b in secondOptions(a) then value.value.b else secondOptions(a)[0];
          var c := if value.value.c in thirdOptions(a, b) then value.value.c else thirdOptions(a, b)[0];
          value := Some(Tuple3(a, b, c));
        } else {
          var b := secondOptions(a)[0];
          value := Some(Tuple3(a, b, thirdOptions(a, b)[0]));
        }
      } else if component == 1 {
        var a := SelectedFirst3(value, firstOptions);
        var b := secondOptions(a)[row];
        if value.Some? {
          if value.value.b == b {
            return;
          }
          if value.value.c in thirdOptions(a, b) {
            value := Some(Tuple3(a, b, value.value.c));
            return;
          } else {
            value := Some(Tuple3(a, b, thirdOptions(a, b)[0]));
          }
        } else {
          value := Some(Tuple3(a, b, thirdOptions(a, b)[0]));
        }
      } else {
        var a := SelectedFirst3(value, firstOptions);
        var b := SelectedSecond(value, firstOptions, secondOptions);
        value := Some(Tuple3(a, b, thirdOptions(a, b)[row]));
      }
    }
  }

  /** `displayValueFor` of `TriplePickerInputRow`: "a, b, c", or `noValueDisplayText` without a value. */
  function TripleDisplay<A, B, C>(v: Option<Tuple3<A, B, C>>, noValueDisplayText: Option<string>,
                                  showA: A -> string, showB: B -> string, showC: C -> string): (d: Option<string>)
    ensures v.None? ==> d == noValueDisplayText
    ensures v.Some? ==> d.Some? && d.value == showA(v.value.a) + ", " + showB(v.value.b) + ", " + showC(v.value.c)
  {
    if v.None? then noValueDisplayText else Some(showA(v.value.a) + ", " + showB(v.value.b) + ", " + showC(v.value.c))
  }
}
